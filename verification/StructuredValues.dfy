/** Sensitive structured values: a bracketed value right behind a prefix that announces one. */
module StructuredValues {
  import opened Sequences
  import opened Inventory
  import opened Brackets

  /** Where a pattern matches, or a stretch of a text that is replaced. */
  datatype Range = Range(from: nat, to: nat)

  predicate InOrder(text: string, ranges: seq<Range>) {
    forall i :: 0 <= i < |ranges| ==>
      ranges[i].from <= ranges[i].to <= |text| && (i > 0 ==> ranges[i - 1].to <= ranges[i].from)
  }

  ghost predicate Finds(find: string -> seq<Range>) {
    forall text :: InOrder(text, find(text))
  }

  /** A pattern: all its matches in a text, from left to right and without overlap. */
  type Pattern = find: string -> seq<Range> | Finds(find) witness (_: string) => []

  /** The end of the value that begins at a place, if one is completed. */
  ghost function ValueAt(text: string, at: nat): (end: Option<nat>)
    ensures end.Some? ==> at < end.value <= |text|
  {
    if at < |text| && Open(text[at]) then ValueEnd(text, at) else None
  }

  // ----- what is replaced

  function EndOf(cuts: seq<Range>): nat {
    if cuts == [] then 0 else cuts[|cuts| - 1].to
  }

  /** The values behind the matches, those inside an earlier one left out. */
  ghost function Cuts(text: string, matches: seq<Range>): seq<Range> {
    if matches == [] then []
    else
      var cuts, m := Cuts(text, matches[..|matches| - 1]), matches[|matches| - 1];
      if m.from < EndOf(cuts) || ValueAt(text, m.to).None? then cuts else cuts + [Range(m.to, ValueAt(text, m.to).value)]
  }

  /** The text up to the end of the last cut, every cut replaced. */
  function Replaced(text: string, cuts: seq<Range>): string
    requires InOrder(text, cuts)
  {
    if cuts == [] then ""
    else
      var init, last := cuts[..|cuts| - 1], cuts[|cuts| - 1];
      assert init != [] ==> init[|init| - 1] == cuts[|cuts| - 2];
      Replaced(text, init) + text[EndOf(init)..last.from] + "<redacted>"
  }

  function WithCuts(text: string, cuts: seq<Range>): string
    requires InOrder(text, cuts)
  {
    Replaced(text, cuts) + text[EndOf(cuts)..]
  }

  /** A cut is the shortest complete value behind a match that does not begin in an earlier cut. */
  ghost predicate CutAt(text: string, matches: seq<Range>, cuts: seq<Range>, k: nat)
    requires k < |cuts|
  {
    exists i :: 0 <= i < |matches| && matches[i].to == cuts[k].from && ValueAt(text, cuts[k].from) == Some(cuts[k].to)
      && EndOf(cuts[..k]) <= matches[i].from
  }

  /** A value is cut, or its prefix begins inside a cut. */
  ghost predicate Covered(cuts: seq<Range>, m: Range) {
    exists k :: 0 <= k < |cuts| && (cuts[k].from == m.to || cuts[k].from <= m.from < cuts[k].to)
  }

  /** Every value behind a match is cut, and nothing else is. */
  ghost predicate ExactCuts(text: string, matches: seq<Range>, cuts: seq<Range>) {
    && InOrder(text, cuts)
    && (forall k :: 0 <= k < |cuts| ==> CutAt(text, matches, cuts, k))
    && (forall i :: 0 <= i < |matches| && ValueAt(text, matches[i].to).Some? ==> Covered(cuts, matches[i]))
  }

  lemma CutsOneMore(text: string, init: seq<Range>, m: Range, matches: seq<Range>)
    requires matches == init + [m]
    ensures Cuts(text, matches) ==
      if m.from < EndOf(Cuts(text, init)) || ValueAt(text, m.to).None? then Cuts(text, init)
      else Cuts(text, init) + [Range(m.to, ValueAt(text, m.to).value)]
  {
    assert matches[..|matches| - 1] == init;
  }

  lemma {:induction false} CutsUpTo(text: string, matches: seq<Range>, cuts: seq<Range>)
    requires InOrder(text, matches) && cuts == Cuts(text, matches)
    ensures ExactCuts(text, matches, cuts)
    ensures forall k :: 0 <= k < |cuts| ==> matches != [] && cuts[k].from <= matches[|matches| - 1].to
    decreases |matches|
  {
    if matches != [] {
      var init, m := matches[..|matches| - 1], matches[|matches| - 1];
      var before := Cuts(text, init);
      assert matches == init + [m];
      BeforeLast(text, init, m, matches);
      CutsUpTo(text, init, before);
      CutsOneMore(text, init, m, matches);
      CutsNext(text, init, m, matches, before, cuts);
    }
  }

  lemma CutsAreExact(text: string, matches: seq<Range>)
    requires InOrder(text, matches)
    ensures ExactCuts(text, matches, Cuts(text, matches))
  {
    CutsUpTo(text, matches, Cuts(text, matches));
  }

  lemma BeforeLast(text: string, init: seq<Range>, m: Range, matches: seq<Range>)
    requires InOrder(text, matches) && matches == init + [m]
    ensures InOrder(text, init) && m.from <= m.to <= |text| && (init != [] ==> init[|init| - 1].to <= m.from)
  {
    assert m == matches[|init|];
    assert forall k :: 0 <= k < |init| ==> init[k] == matches[k];
  }

  lemma CutStays(text: string, init: seq<Range>, m: Range, matches: seq<Range>, cuts: seq<Range>, more: seq<Range>, k: nat)
    requires matches == init + [m] && k < |cuts| && cuts <= more && CutAt(text, init, cuts, k)
    ensures CutAt(text, matches, more, k)
  {
    assert more[..k] == cuts[..k] && more[k] == cuts[k];
    var i :| 0 <= i < |init| && init[i].to == cuts[k].from && ValueAt(text, cuts[k].from) == Some(cuts[k].to)
      && EndOf(cuts[..k]) <= init[i].from;
    assert matches[i] == init[i];
  }

  lemma CoveredStays(cuts: seq<Range>, more: seq<Range>, m: Range)
    requires cuts <= more && Covered(cuts, m)
    ensures Covered(more, m)
  {
    var k :| 0 <= k < |cuts| && (cuts[k].from == m.to || cuts[k].from <= m.from < cuts[k].to);
    assert more[k] == cuts[k];
  }

  lemma CutsStay(text: string, init: seq<Range>, m: Range, matches: seq<Range>, cuts: seq<Range>, more: seq<Range>)
    requires matches == init + [m] && cuts <= more && ExactCuts(text, init, cuts)
    ensures forall k :: 0 <= k < |cuts| ==> CutAt(text, matches, more, k)
    ensures forall i :: 0 <= i < |init| && ValueAt(text, matches[i].to).Some? ==> Covered(more, matches[i])
  {
    forall k | 0 <= k < |cuts| ensures CutAt(text, matches, more, k) {
      CutStays(text, init, m, matches, cuts, more, k);
    }
    forall i | 0 <= i < |init| && ValueAt(text, matches[i].to).Some? ensures Covered(more, matches[i]) {
      assert matches[i] == init[i];
      CoveredStays(cuts, more, matches[i]);
    }
  }

  lemma NoCutAdded(text: string, init: seq<Range>, m: Range, matches: seq<Range>, cuts: seq<Range>)
    requires matches == init + [m] && ExactCuts(text, init, cuts)
    requires ValueAt(text, m.to).Some? ==> m.from < EndOf(cuts)
    requires forall k :: 0 <= k < |cuts| ==> cuts[k].from <= m.from
    ensures ExactCuts(text, matches, cuts)
  {
    CutsStay(text, init, m, matches, cuts, cuts);
    if ValueAt(text, m.to).Some? {
      assert cuts[|cuts| - 1].from <= m.from < cuts[|cuts| - 1].to;
      assert Covered(cuts, m);
    }
  }

  lemma LastCut(text: string, init: seq<Range>, m: Range, matches: seq<Range>, cuts: seq<Range>, more: seq<Range>)
    requires matches == init + [m] && ValueAt(text, m.to).Some? && EndOf(cuts) <= m.from <= m.to
    requires InOrder(text, cuts) && more == cuts + [Range(m.to, ValueAt(text, m.to).value)]
    ensures InOrder(text, more) && CutAt(text, matches, more, |cuts|) && Covered(more, m)
  {
    assert more[..|cuts|] == cuts && more[|cuts|] == Range(m.to, ValueAt(text, m.to).value);
    assert matches[|init|] == m;
  }

  lemma CutAdded(text: string, init: seq<Range>, m: Range, matches: seq<Range>, cuts: seq<Range>, more: seq<Range>)
    requires matches == init + [m] && ExactCuts(text, init, cuts)
    requires ValueAt(text, m.to).Some? && EndOf(cuts) <= m.from <= m.to
    requires more == cuts + [Range(m.to, ValueAt(text, m.to).value)]
    ensures ExactCuts(text, matches, more)
  {
    CutsStay(text, init, m, matches, cuts, more);
    LastCut(text, init, m, matches, cuts, more);
  }

  lemma CutsNext(text: string, init: seq<Range>, m: Range, matches: seq<Range>, cuts: seq<Range>, more: seq<Range>)
    requires matches == init + [m] && ExactCuts(text, init, cuts) && m.from <= m.to
    requires forall k :: 0 <= k < |cuts| ==> cuts[k].from <= m.from
    requires more == if m.from < EndOf(cuts) || ValueAt(text, m.to).None? then cuts else cuts + [Range(m.to, ValueAt(text, m.to).value)]
    ensures ExactCuts(text, matches, more) && forall k :: 0 <= k < |more| ==> more[k].from <= m.to
  {
    if m.from < EndOf(cuts) || ValueAt(text, m.to).None? {
      NoCutAdded(text, init, m, matches, cuts);
    } else {
      CutAdded(text, init, m, matches, cuts, more);
    }
  }

  // ----- the cuts are the only exact ones

  lemma {:induction false} Ascend(text: string, ranges: seq<Range>, i: nat, j: nat)
    requires InOrder(text, ranges) && i <= j < |ranges|
    ensures ranges[i].from <= ranges[j].from && ranges[i].to <= ranges[j].to && (i < j ==> ranges[i].to <= ranges[j].from)
  {
    if i < j { Ascend(text, ranges, i, j - 1); }
  }

  /** A value that begins behind the first `k` cuts is covered by a later one. */
  lemma CoveredLater(text: string, cuts: seq<Range>, m: Range, k: nat) returns (q: nat)
    requires InOrder(text, cuts) && k <= |cuts| && EndOf(cuts[..k]) <= m.from <= m.to && Covered(cuts, m)
    requires forall q :: 0 <= q < |cuts| ==> cuts[q].from < cuts[q].to
    ensures k <= q < |cuts| && (cuts[q].from == m.to || cuts[q].from <= m.from < cuts[q].to)
  {
    q :| 0 <= q < |cuts| && (cuts[q].from == m.to || cuts[q].from <= m.from < cuts[q].to);
    if q < k { Ascend(text, cuts, q, k - 1); }
  }

  /** Where one list of exact cuts goes on, every other one does, no later. */
  lemma NextCut(text: string, matches: seq<Range>, cuts: seq<Range>, others: seq<Range>, k: nat)
    requires InOrder(text, matches) && ExactCuts(text, matches, cuts) && ExactCuts(text, matches, others)
    requires k < |cuts| && k <= |others| && cuts[..k] == others[..k]
    ensures k < |others| && others[k].from <= cuts[k].from
  {
    assert CutAt(text, matches, cuts, k);
    var i :| 0 <= i < |matches| && matches[i].to == cuts[k].from && ValueAt(text, cuts[k].from) == Some(cuts[k].to)
      && EndOf(cuts[..k]) <= matches[i].from;
    forall q | 0 <= q < |others| ensures others[q].from < others[q].to {
      assert CutAt(text, matches, others, q);
    }
    var q := CoveredLater(text, others, matches[i], k);
    Ascend(text, others, k, q);
  }

  lemma SameCut(text: string, matches: seq<Range>, cuts: seq<Range>, others: seq<Range>, k: nat)
    requires InOrder(text, matches) && ExactCuts(text, matches, cuts) && ExactCuts(text, matches, others)
    requires k < |cuts| && k < |others| && cuts[..k] == others[..k]
    ensures cuts[k] == others[k]
  {
    NextCut(text, matches, cuts, others, k);
    NextCut(text, matches, others, cuts, k);
    assert CutAt(text, matches, cuts, k) && CutAt(text, matches, others, k);
  }

  lemma {:induction false} SameCuts(text: string, matches: seq<Range>, cuts: seq<Range>, others: seq<Range>, k: nat)
    requires InOrder(text, matches) && ExactCuts(text, matches, cuts) && ExactCuts(text, matches, others)
    requires k <= |cuts| && k <= |others|
    ensures cuts[..k] == others[..k]
  {
    if k > 0 {
      SameCuts(text, matches, cuts, others, k - 1);
      SameCut(text, matches, cuts, others, k - 1);
      TakeOneMore(cuts, k - 1);
      TakeOneMore(others, k - 1);
    }
  }

  /** There is exactly one way to cut every value behind a match and nothing else. */
  lemma CutsExactly(text: string, matches: seq<Range>, cuts: seq<Range>)
    requires InOrder(text, matches)
    ensures ExactCuts(text, matches, cuts) <==> cuts == Cuts(text, matches)
  {
    CutsAreExact(text, matches);
    if ExactCuts(text, matches, cuts) {
      var exact := Cuts(text, matches);
      var n := if |cuts| < |exact| then |cuts| else |exact|;
      SameCuts(text, matches, cuts, exact, n);
      if n < |cuts| { NextCut(text, matches, cuts, exact, n); }
      if n < |exact| { NextCut(text, matches, exact, cuts, n); }
      assert cuts[..|cuts|] == cuts && exact[..|exact|] == exact;
    }
  }

  // ----- when nothing is replaced

  /** No match has a completed value behind it. */
  ghost predicate NoValue(text: string, matches: seq<Range>) {
    forall i :: 0 <= i < |matches| ==> ValueAt(text, matches[i].to).None?
  }

  lemma {:induction false} FirstReplaced(text: string, cuts: seq<Range>)
    requires InOrder(text, cuts) && cuts != []
    ensures text[..cuts[0].from] + "<redacted>" <= Replaced(text, cuts)
  {
    var init := cuts[..|cuts| - 1];
    if init == [] {
      assert text[0..cuts[0].from] == text[..cuts[0].from];
    } else {
      FirstReplaced(text, init);
    }
  }

  /** A text keeps its form exactly when no value is completed in it. */
  lemma UnchangedExactly(text: string, matches: seq<Range>)
    requires InOrder(text, matches)
    ensures InOrder(text, Cuts(text, matches))
    ensures WithCuts(text, Cuts(text, matches)) == text <==> NoValue(text, matches)
  {
    var cuts := Cuts(text, matches);
    CutsAreExact(text, matches);
    if cuts == [] {
      forall i | 0 <= i < |matches| ensures ValueAt(text, matches[i].to).None? {
        assert !Covered(cuts, matches[i]);
      }
    } else {
      FirstReplaced(text, cuts);
      assert CutAt(text, matches, cuts, 0);
      assert Open(text[cuts[0].from]);
      assert WithCuts(text, cuts)[cuts[0].from] == '<';
    }
  }

  /** The only value is the one that is cut. */
  lemma OneCut(text: string, m: Range, end: nat)
    requires ValueAt(text, m.to) == Some(end)
    ensures Cuts(text, [m]) == [Range(m.to, end)]
  {
    CutsOneMore(text, [], m, [m]);
  }

  lemma WithOneCut(text: string, from: nat, to: nat)
    requires from <= to <= |text| && InOrder(text, [Range(from, to)])
    ensures WithCuts(text, [Range(from, to)]) == text[..from] + "<redacted>" + text[to..]
  {
    var cuts := [Range(from, to)];
    assert cuts[..0] == [] && text[0..from] == text[..from];
    assert Replaced(text, cuts) == "" + text[0..from] + "<redacted>";
  }

  /** The text up to the last cut is independent of what stands behind it. */
  lemma {:induction false} ReplacedInPrefix(text: string, cuts: seq<Range>, n: nat)
    requires InOrder(text, cuts) && EndOf(cuts) <= n <= |text|
    ensures InOrder(text[..n], cuts) && Replaced(text[..n], cuts) == Replaced(text, cuts)
  {
    CutsWithin(text, cuts, n);
    if cuts != [] {
      var init, last := cuts[..|cuts| - 1], cuts[|cuts| - 1];
      assert init != [] ==> init[|init| - 1] == cuts[|cuts| - 2];
      ReplacedInPrefix(text, init, n);
      assert text[..n][EndOf(init)..last.from] == text[EndOf(init)..last.from];
    }
  }

  lemma {:induction false} CutsWithin(text: string, cuts: seq<Range>, n: nat)
    requires InOrder(text, cuts) && EndOf(cuts) <= n <= |text|
    ensures InOrder(text[..n], cuts)
  {
    if cuts != [] {
      var init := cuts[..|cuts| - 1];
      assert init != [] ==> init[|init| - 1] == cuts[|cuts| - 2];
      CutsWithin(text, init, n);
      forall i | 0 <= i < |cuts| ensures cuts[i].to <= n {
        if i < |init| { assert cuts[i] == init[i]; }
      }
    }
  }

  /** Cutting, one cut after the other: everything outside the cuts is kept, each cut becomes one mark. */
  lemma CutAfterCut(text: string, init: seq<Range>, last: Range)
    requires InOrder(text, init + [last]) && last.from <= last.to <= |text|
    ensures WithCuts(text, []) == text && InOrder(text[..last.from], init)
    ensures WithCuts(text, init + [last]) == WithCuts(text[..last.from], init) + "<redacted>" + text[last.to..]
  {
    var cuts := init + [last];
    assert cuts[..|init|] == init && cuts[|init|] == last && text[0..] == text;
    forall i | 0 <= i < |init| ensures init[i] == cuts[i] {
    }
    assert init != [] ==> EndOf(init) == cuts[|cuts| - 2].to;
    ReplacedInPrefix(text, init, last.from);
    assert text[..last.from][EndOf(init)..] == text[EndOf(init)..last.from];
  }

  // ----- the scans

  /** The output and the place in the text behind some cuts. */
  ghost predicate Redacting(text: string, cuts: seq<Range>, cursor: nat, output: string) {
    && InOrder(text, cuts) && cursor == EndOf(cuts) <= |text| && output == Replaced(text, cuts)
    && (cursor == 0 <==> cuts == [])
  }

  lemma ReplacedOneMore(text: string, cuts: seq<Range>, cursor: nat, output: string, from: nat, to: nat)
    requires Redacting(text, cuts, cursor, output) && cursor <= from < to <= |text|
    ensures Redacting(text, cuts + [Range(from, to)], to, output + text[cursor..from] + "<redacted>")
  {
    var more := cuts + [Range(from, to)];
    assert more[..|cuts|] == cuts;
  }

  /** Replaces every sensitive structured value. */
  method RedactStructuredValues(pattern: Pattern, text: string) returns (output: string)
    ensures InOrder(text, Cuts(text, pattern(text)))
    ensures output == WithCuts(text, Cuts(text, pattern(text)))
  {
    var matches := pattern(text);
    output := "";
    var cursor: nat := 0;
    ghost var cuts: seq<Range> := [];
    for i := 0 to |matches|
      invariant cuts == Cuts(text, matches[..i]) && Redacting(text, cuts, cursor, output)
    {
      var m := matches[i];
      TakeOneMore(matches, i);
      CutsOneMore(text, matches[..i], m, matches[..i + 1]);
      if m.from < cursor || m.to >= |text| || !Open(text[m.to]) {
        continue;
      }
      var end, ok := StructuredValueEnd(text, m.to);
      ValueEndIs(text, m.to, end, ok);
      if !ok {
        continue;
      }
      ReplacedOneMore(text, cuts, cursor, output, m.to, end);
      output := output + text[cursor..m.to] + "<redacted>";
      cursor, cuts := end, cuts + [Range(m.to, end)];
    }
    assert matches[..|matches|] == matches;
    if cursor == 0 {
      assert text[0..] == text;
      return text;
    }
    output := output + text[cursor..];
  }

  /** A match ends the text, or opens a value that is not completed. */
  ghost predicate Incomplete(text: string, matches: seq<Range>) {
    exists i :: 0 <= i < |matches| && OpensValue(text, matches[i].to) && ValueAt(text, matches[i].to).None?
  }

  predicate OpensValue(text: string, at: nat) {
    at >= |text| || Open(text[at])
  }

  /** A value is announced at the end of the text, or it begins with a bracket and no stretch from there is
      complete. */
  lemma IncompleteExactly(text: string, matches: seq<Range>)
    requires InOrder(text, matches)
    ensures Incomplete(text, matches) <==> exists i ::
      && 0 <= i < |matches|
      && (matches[i].to == |text|
          || (text[matches[i].to] in {'{', '['}
              && forall e :: matches[i].to < e <= |text| ==> !Complete(text[matches[i].to..e])))
  {
    forall i | 0 <= i < |matches| && matches[i].to < |text| && Open(text[matches[i].to])
      ensures ValueAt(text, matches[i].to).None? <==>
        forall e :: matches[i].to < e <= |text| ==> !Complete(text[matches[i].to..e])
    {
      var at := matches[i].to;
      var end := ValueEnd(text, at);
      if end.Some? { assert Complete(text[at..end.value]); }
    }
  }

  method HasIncompleteSensitiveStructure(pattern: Pattern, text: string) returns (incomplete: bool)
    ensures incomplete <==> Incomplete(text, pattern(text))
  {
    var matches := pattern(text);
    for i := 0 to |matches|
      invariant forall k :: 0 <= k < i ==> !(OpensValue(text, matches[k].to) && ValueAt(text, matches[k].to).None?)
    {
      var m := matches[i];
      if m.to >= |text| {
        return true;
      }
      if !Open(text[m.to]) {
        continue;
      }
      var end, complete := StructuredValueEnd(text, m.to);
      ValueEndIs(text, m.to, end, complete);
      if !complete {
        return true;
      }
    }
    return false;
  }
}
