/** The pending ledger as a sequence of inventory transformers, and the argument
    that lets a selection of mutations be published ahead of earlier ones.
 */
module Ledger {
  import opened Inventory

  // ----- what a mutation does to an inventory

  /** The lifecycle of one saved key across a mutation. */
  datatype KeyChange = Unchanged | Create | Replace | Delete

  function ChangeBetween(previous: Option<string>, next: Option<string>): KeyChange {
    if previous.None? && next.Some? then Create
    else if previous.Some? && next.None? then Delete
    else if previous.Some? && next.Some? && previous != next then Replace
    else Unchanged
  }

  function KeyChangeOf(m: PendingMutation, name: string): KeyChange {
    ChangeBetween(Lookup(m.keysBefore, name), Lookup(m.keysAfter, name))
  }

  predicate Touches(m: PendingMutation, name: string) {
    KeyChangeOf(m, name) != Unchanged
  }

  predicate IsBulk(m: PendingMutation) { m.bulkAfter.Some? }

  /** Only a mutation without a key name of its own edits the connections. */
  predicate IsHost(m: PendingMutation) { !IsBulk(m) && m.keyName == "" }

  function EndpointOf(c: Option<Connection>): Option<Endpoint> {
    match c
    case None => None
    case Some(connection) => Some(connection.value)
  }

  /** The material of one key once the difference `before` to `after` is applied. */
  function PatchedKey(keys: map<string, string>, before: map<string, string>, after: map<string, string>, n: string): Option<string> {
    if Get(before, n) == Get(after, n) then Get(keys, n) else Get(after, n)
  }

  function Patch(keys: map<string, string>, before: map<string, string>, after: map<string, string>): map<string, string> {
    map n | n in keys.Keys + after.Keys && PatchedKey(keys, before, after, n).Some?
      :: PatchedKey(keys, before, after, n).value
  }

  function SetConnection(conns: map<string, Endpoint>, alias: string, after: Option<Connection>): map<string, Endpoint> {
    match after
    case None => conns - {alias}
    case Some(c) => (conns - {alias})[c.name := c.value]
  }

  function Apply(inv: Inv, m: PendingMutation): Inv {
    match m.bulkAfter
    case Some(snapshot) => View(snapshot)
    case None => Inv(
      if m.keyName == "" then SetConnection(inv.conns, m.alias, m.after) else inv.conns,
      Patch(inv.keys, Index(m.keysBefore), Index(m.keysAfter)))
  }

  function Replay(inv: Inv, ms: seq<PendingMutation>): Inv
    decreases |ms|
  {
    if ms == [] then inv else Replay(Apply(inv, ms[0]), ms[1..])
  }

  // ----- recorded steps

  /** Every key a connection names is saved. */
  ghost predicate Closed(inv: Inv) {
    forall c :: c in inv.conns && inv.conns[c].keyName != "" ==> inv.conns[c].keyName in inv.keys
  }

  ghost predicate WellFormed(m: PendingMutation) {
    && Unique(m.keysBefore) && Unique(m.keysAfter)
    && (m.after.Some? ==> m.after.value.name == m.alias)
    && (!IsBulk(m) && m.keyName != "" ==> m.before.None? && m.after.None?)
    && (IsBulk(m) ==> UniqueSnapshot(m.bulkAfter.value))
  }

  /** What the mutation says about the inventory it was recorded on is true of `inv`. */
  ghost predicate Recorded(inv: Inv, m: PendingMutation) {
    && WellFormed(m)
    && (IsHost(m) ==> m.alias != "" && EndpointOf(m.before) == Get(inv.conns, m.alias))
    && (!IsBulk(m) ==> forall n :: Touches(m, n) ==> n != "" && Lookup(m.keysBefore, n) == Get(inv.keys, n))
  }

  /** No connection but the mutation's own names a saved key the mutation changes. */
  ghost predicate Isolated(inv: Inv, m: PendingMutation) {
    forall c :: c in inv.conns && !(IsHost(m) && c == m.alias) ==> !Touches(m, inv.conns[c].keyName)
  }

  ghost predicate StepOK(inv: Inv, m: PendingMutation) {
    && Closed(inv) && Closed(Apply(inv, m))
    && Recorded(inv, m)
    && (!IsBulk(m) ==> Isolated(inv, m))
  }

  /** Every mutation of the ledger is a faithful record at its place in the replay. */
  ghost predicate LedgerOK(inv: Inv, ms: seq<PendingMutation>)
    decreases |ms|
  {
    ms != [] ==> StepOK(inv, ms[0]) && LedgerOK(Apply(inv, ms[0]), ms[1..])
  }

  // ----- dependencies

  predicate ReferenceRemoved(m: PendingMutation, keyName: string) {
    && m.before.Some? && m.before.value.value.keyName == keyName
    && (m.after.None? || m.after.value.value.keyName != keyName)
  }

  /** The key named `n`, changed by `selected`, ties it to `earlier`. */
  predicate KeyTies(earlier: PendingMutation, selected: PendingMutation, n: string) {
    && Touches(selected, n)
    && (|| Touches(earlier, n)
        || (KeyChangeOf(selected, n) in {Replace, Delete} && ReferenceRemoved(earlier, n)))
  }

  predicate ReferenceTies(earlier: PendingMutation, selected: PendingMutation) {
    && selected.after.Some? && selected.after.value.value.keyName != ""
    && KeyChangeOf(earlier, selected.after.value.value.keyName) in {Create, Replace}
  }

  /** `selected` may not be published ahead of `earlier`. */
  ghost predicate DependsOn(earlier: PendingMutation, selected: PendingMutation) {
    || IsBulk(selected) || IsBulk(earlier)
    || (earlier.alias != "" && earlier.alias == selected.alias)
    || (exists n :: KeyTies(earlier, selected, n))
    || ReferenceTies(earlier, selected)
  }

  // ----- the effect of a mutation, name by name

  lemma PatchAt(keys: map<string, string>, m: PendingMutation, n: string)
    requires Unique(m.keysBefore) && Unique(m.keysAfter)
    ensures Get(Patch(keys, Index(m.keysBefore), Index(m.keysAfter)), n)
         == if Touches(m, n) then Lookup(m.keysAfter, n) else Get(keys, n)
  {
    IndexIsLookup(m.keysBefore, n);
    IndexIsLookup(m.keysAfter, n);
  }

  lemma ApplyAt(inv: Inv, m: PendingMutation)
    requires WellFormed(m) && !IsBulk(m)
    ensures forall n :: Get(Apply(inv, m).keys, n) == if Touches(m, n) then Lookup(m.keysAfter, n) else Get(inv.keys, n)
    ensures forall c :: Get(Apply(inv, m).conns, c)
                     == if IsHost(m) && c == m.alias then EndpointOf(m.after) else Get(inv.conns, c)
  {
    forall n ensures Get(Apply(inv, m).keys, n) == if Touches(m, n) then Lookup(m.keysAfter, n) else Get(inv.keys, n) {
      PatchAt(inv.keys, m, n);
    }
  }

  lemma GetExtensional<V>(a: map<string, V>, b: map<string, V>)
    requires forall n :: Get(a, n) == Get(b, n)
    ensures a == b
  {
    forall n ensures n in a <==> n in b {
      assert Get(a, n) == Get(b, n);
    }
    forall n | n in a ensures a[n] == b[n] {
      assert Get(a, n) == Get(b, n);
    }
  }

  // ----- adjacent mutations without a dependency

  /** Two unrelated mutations commute exactly when they do not fight over the
      connection with the empty alias, which the alias rule does not look at. */
  lemma CommuteExactly(inv: Inv, e: PendingMutation, s: PendingMutation)
    requires WellFormed(e) && WellFormed(s) && !DependsOn(e, s)
    ensures Apply(Apply(inv, e), s) == Apply(Apply(inv, s), e)
       <==> (IsHost(e) && IsHost(s) && e.alias == s.alias ==> EndpointOf(e.after) == EndpointOf(s.after))
  {
    var es, se := Apply(Apply(inv, e), s), Apply(Apply(inv, s), e);
    forall n ensures Get(es.keys, n) == Get(se.keys, n) {
      KeysCommute(inv, e, s, n);
    }
    GetExtensional(es.keys, se.keys);
    ConnectionsAfterBoth(inv, e, s);
    ConnectionsAfterBoth(inv, s, e);
    if IsHost(e) && IsHost(s) && e.alias == s.alias ==> EndpointOf(e.after) == EndpointOf(s.after) {
      GetExtensional(es.conns, se.conns);
    } else {
      assert Get(es.conns, s.alias) != Get(se.conns, s.alias);
    }
  }

  lemma KeysCommute(inv: Inv, e: PendingMutation, s: PendingMutation, n: string)
    requires WellFormed(e) && WellFormed(s) && !DependsOn(e, s)
    ensures Get(Apply(Apply(inv, e), s).keys, n) == Get(Apply(Apply(inv, s), e).keys, n)
  {
    assert !KeyTies(e, s, n);
    PatchAt(inv.keys, e, n);
    PatchAt(inv.keys, s, n);
    PatchAt(Apply(inv, e).keys, s, n);
    PatchAt(Apply(inv, s).keys, e, n);
  }

  lemma ConnectionsAfterBoth(inv: Inv, first: PendingMutation, second: PendingMutation)
    requires WellFormed(first) && WellFormed(second) && !IsBulk(first) && !IsBulk(second)
    ensures forall c ::
      Get(Apply(Apply(inv, first), second).conns, c) ==
      (if IsHost(second) && c == second.alias then EndpointOf(second.after)
       else if IsHost(first) && c == first.alias then EndpointOf(first.after)
       else Get(inv.conns, c))
  {
    ApplyAt(inv, first);
    ApplyAt(Apply(inv, first), second);
  }

  /** An unrelated mutation finds the inventory it was recorded on one step earlier. */
  lemma HoistStep(inv: Inv, e: PendingMutation, s: PendingMutation)
    requires StepOK(inv, e) && StepOK(Apply(inv, e), s) && !DependsOn(e, s)
    ensures Recorded(inv, s) && Isolated(inv, s) && Closed(Apply(inv, s))
  {
    var mid := Apply(inv, e);
    ApplyAt(inv, e);
    ApplyAt(mid, s);
    ApplyAt(inv, s);
    forall n | Touches(s, n) ensures n != "" && Lookup(s.keysBefore, n) == Get(inv.keys, n) {
      assert !KeyTies(e, s, n);
      assert Get(mid.keys, n) == Get(inv.keys, n);
    }
    if IsHost(s) {
      assert Get(mid.conns, s.alias) == Get(inv.conns, s.alias);
    }
    forall c | c in inv.conns && !(IsHost(s) && c == s.alias)
      ensures !Touches(s, inv.conns[c].keyName)
    {
      HoistIsolated(inv, e, s, c);
    }
    var out := Apply(inv, s);
    forall c | c in out.conns && out.conns[c].keyName != ""
      ensures out.conns[c].keyName in out.keys
    {
      HoistClosed(inv, e, s, c);
    }
  }

  lemma HoistIsolated(inv: Inv, e: PendingMutation, s: PendingMutation, c: string)
    requires StepOK(inv, e) && StepOK(Apply(inv, e), s) && !DependsOn(e, s)
    requires c in inv.conns && !(IsHost(s) && c == s.alias)
    ensures !Touches(s, inv.conns[c].keyName)
  {
    var mid, n := Apply(inv, e), inv.conns[c].keyName;
    ApplyAt(inv, e);
    if Touches(s, n) {
      assert !KeyTies(e, s, n);
      assert Get(mid.keys, n) == Get(inv.keys, n);
      assert n in inv.keys;
      if Get(mid.conns, c) != Get(inv.conns, c) {
        assert ReferenceRemoved(e, n);
      }
      assert false;
    }
  }

  lemma HoistClosed(inv: Inv, e: PendingMutation, s: PendingMutation, c: string)
    requires StepOK(inv, e) && StepOK(Apply(inv, e), s) && !DependsOn(e, s)
    requires c in Apply(inv, s).conns && Apply(inv, s).conns[c].keyName != ""
    ensures Apply(inv, s).conns[c].keyName in Apply(inv, s).keys
  {
    var mid, out := Apply(inv, e), Apply(inv, s);
    var n := out.conns[c].keyName;
    ApplyAt(inv, e);
    ApplyAt(inv, s);
    ApplyAt(mid, s);
    assert Get(out.conns, c).Some?;
    if IsHost(s) && c == s.alias {
      assert Get(Apply(mid, s).conns, c) == Get(out.conns, c);
      assert n in Apply(mid, s).keys;
      assert Get(Apply(mid, s).keys, n).Some?;
      if !Touches(s, n) {
        assert !ReferenceTies(e, s);
        assert Get(mid.keys, n).Some?;
        assert !Touches(e, n);
      }
      assert Get(out.keys, n).Some?;
    } else {
      assert Get(inv.conns, c) == Get(out.conns, c);
      HoistIsolated(inv, e, s, c);
      assert Get(out.keys, n) == Get(inv.keys, n);
    }
  }

  /** The earlier mutation is as good a record after the unrelated one. */
  lemma DelayStep(inv: Inv, e: PendingMutation, s: PendingMutation)
    requires StepOK(inv, e) && StepOK(Apply(inv, e), s) && !DependsOn(e, s)
    requires Recorded(inv, s)
    ensures Recorded(Apply(inv, s), e) && Isolated(Apply(inv, s), e)
  {
    var mid, out := Apply(inv, e), Apply(inv, s);
    ApplyAt(inv, e);
    ApplyAt(inv, s);
    ApplyAt(mid, s);
    forall n | Touches(e, n) ensures n != "" && Lookup(e.keysBefore, n) == Get(out.keys, n) {
      assert !KeyTies(e, s, n);
      assert Get(out.keys, n) == Get(inv.keys, n);
    }
    if IsHost(e) {
      assert Get(out.conns, e.alias) == Get(inv.conns, e.alias);
    }
    forall c | c in out.conns && !(IsHost(e) && c == e.alias)
      ensures !Touches(e, out.conns[c].keyName)
    {
      DelayIsolated(inv, e, s, c);
    }
  }

  lemma DelayIsolated(inv: Inv, e: PendingMutation, s: PendingMutation, c: string)
    requires StepOK(inv, e) && StepOK(Apply(inv, e), s) && !DependsOn(e, s)
    requires c in Apply(inv, s).conns && !(IsHost(e) && c == e.alias)
    ensures !Touches(e, Apply(inv, s).conns[c].keyName)
  {
    var mid, out := Apply(inv, e), Apply(inv, s);
    var n := out.conns[c].keyName;
    ApplyAt(inv, s);
    assert Get(out.conns, c).Some?;
    if IsHost(s) && c == s.alias {
      ApplyAt(inv, e);
      ApplyAt(mid, s);
      assert Get(Apply(mid, s).conns, c) == Get(out.conns, c);
      assert n == "" || Get(Apply(mid, s).keys, n).Some?;
      assert !KeyTies(e, s, n) && !ReferenceTies(e, s);
    } else {
      assert Get(inv.conns, c) == Get(out.conns, c);
    }
  }

  // ----- which pairs need an edge

  /** The later mutation is as good a record without the earlier one, and the earlier one after it. */
  ghost predicate Exchangeable(inv: Inv, e: PendingMutation, s: PendingMutation) {
    && Recorded(inv, s) && Isolated(inv, s) && Closed(Apply(inv, s))
    && Recorded(Apply(inv, s), e) && Isolated(Apply(inv, s), e)
  }

  /** A key both change: the later one's record speaks of the material the earlier one left. */
  lemma SharedKeyTies(inv: Inv, e: PendingMutation, s: PendingMutation, n: string)
    requires StepOK(inv, e) && StepOK(Apply(inv, e), s) && !IsBulk(e) && !IsBulk(s)
    requires Touches(s, n) && Touches(e, n)
    ensures !Recorded(inv, s)
  {
    ApplyAt(inv, e);
    assert Lookup(s.keysBefore, n) == Get(Apply(inv, e).keys, n) == Lookup(e.keysAfter, n);
    assert Lookup(e.keysBefore, n) == Get(inv.keys, n);
  }

  /** A key the earlier one's connection gave up: before that, it still names the key. */
  lemma ReferenceHolds(inv: Inv, e: PendingMutation, s: PendingMutation, n: string)
    requires StepOK(inv, e) && StepOK(Apply(inv, e), s) && !IsBulk(e) && !IsBulk(s)
    requires e.alias == "" || e.alias != s.alias
    requires Touches(s, n) && ReferenceRemoved(e, n)
    ensures !Isolated(inv, s)
  {
    assert IsHost(e) && Get(inv.conns, e.alias) == EndpointOf(e.before);
    assert e.alias in inv.conns && inv.conns[e.alias].keyName == n;
  }

  /** A key the later one's connection takes up: without the earlier one it is missing, or other material. */
  lemma ReferenceNeeds(inv: Inv, e: PendingMutation, s: PendingMutation)
    requires StepOK(inv, e) && StepOK(Apply(inv, e), s) && !IsBulk(e) && !IsBulk(s)
    requires e.alias == "" || e.alias != s.alias
    requires ReferenceTies(e, s) && !Touches(s, s.after.value.value.keyName)
    ensures !Closed(Apply(inv, s)) || !Isolated(Apply(inv, s), e)
  {
    var out, n := Apply(inv, s), s.after.value.value.keyName;
    ApplyAt(inv, s);
    assert Get(out.conns, s.alias) == EndpointOf(s.after) && s.alias in out.conns && out.conns[s.alias].keyName == n;
    assert Get(out.keys, n) == Get(inv.keys, n) == Lookup(e.keysBefore, n);
    assert IsHost(e) ==> e.alias != s.alias;
  }

  /** There are no more edges than needed: two mutations in a row that edit different connections have one
      exactly if they cannot change places. */
  lemma EdgeExactly(inv: Inv, e: PendingMutation, s: PendingMutation)
    requires StepOK(inv, e) && StepOK(Apply(inv, e), s) && !IsBulk(e) && !IsBulk(s)
    requires e.alias == "" || e.alias != s.alias
    ensures DependsOn(e, s) <==> !Exchangeable(inv, e, s)
  {
    if !DependsOn(e, s) {
      HoistStep(inv, e, s);
      DelayStep(inv, e, s);
    } else if n :| KeyTies(e, s, n) {
      if Touches(e, n) {
        SharedKeyTies(inv, e, s, n);
      } else {
        ReferenceHolds(inv, e, s, n);
      }
    } else {
      var n := s.after.value.value.keyName;
      assert !KeyTies(e, s, n);
      ReferenceNeeds(inv, e, s);
    }
  }

  /** Swapping two adjacent unrelated mutations keeps a ledger faithful and
      leads to the same inventory. */
  lemma SwapAdjacent(inv: Inv, e: PendingMutation, s: PendingMutation, rest: seq<PendingMutation>)
    requires LedgerOK(inv, [e, s] + rest) && !DependsOn(e, s)
    ensures LedgerOK(inv, [s, e] + rest)
    ensures Replay(inv, [s, e] + rest) == Replay(inv, [e, s] + rest)
  {
    var es, se := [e, s] + rest, [s, e] + rest;
    assert es[1..] == [s] + rest && ([s] + rest)[1..] == rest;
    assert se[1..] == [e] + rest && ([e] + rest)[1..] == rest;
    HoistStep(inv, e, s);
    DelayStep(inv, e, s);
    CommuteExactly(inv, e, s);
    assert LedgerOK(inv, es) && LedgerOK(Apply(inv, e), [s] + rest);
    assert LedgerOK(Apply(inv, s), [e] + rest);
    assert Replay(inv, es) == Replay(Apply(inv, e), [s] + rest);
    assert Replay(inv, se) == Replay(Apply(inv, s), [e] + rest);
  }

  // ----- ledgers in pieces

  lemma {:induction false} ReplayConcat(inv: Inv, a: seq<PendingMutation>, b: seq<PendingMutation>)
    ensures Replay(inv, a + b) == Replay(Replay(inv, a), b)
    decreases |a|
  {
    if a == [] {
      assert a + b == b;
    } else {
      assert (a + b)[1..] == a[1..] + b;
      ReplayConcat(Apply(inv, a[0]), a[1..], b);
    }
  }

  lemma {:induction false} LedgerConcat(inv: Inv, a: seq<PendingMutation>, b: seq<PendingMutation>)
    ensures LedgerOK(inv, a + b) <==> LedgerOK(inv, a) && LedgerOK(Replay(inv, a), b)
    decreases |a|
  {
    if a == [] {
      assert a + b == b;
    } else {
      assert (a + b)[1..] == a[1..] + b;
      LedgerConcat(Apply(inv, a[0]), a[1..], b);
    }
  }

  /** No replay state of a faithful ledger has a connection naming a missing key. */
  lemma {:induction false} ReplayClosed(inv: Inv, ms: seq<PendingMutation>, i: nat)
    requires Closed(inv) && LedgerOK(inv, ms) && i <= |ms|
    ensures Closed(Replay(inv, ms[..i]))
    decreases |ms|
  {
    if i > 0 {
      assert ms[..i] == [ms[0]] + ms[1..][..i - 1];
      assert ms[..i][1..] == ms[1..][..i - 1];
      ReplayClosed(Apply(inv, ms[0]), ms[1..], i - 1);
    }
  }

  /** A mutation no earlier one holds back can move to the front of the ledger. */
  lemma {:induction false} Hoist(inv: Inv, pre: seq<PendingMutation>, s: PendingMutation, post: seq<PendingMutation>)
    requires LedgerOK(inv, pre + [s] + post)
    requires forall i :: 0 <= i < |pre| ==> !DependsOn(pre[i], s)
    ensures LedgerOK(inv, [s] + pre + post)
    ensures Replay(inv, [s] + pre + post) == Replay(inv, pre + [s] + post)
    decreases |pre|
  {
    if pre == [] {
      assert [s] + pre + post == pre + [s] + post;
    } else {
      var e, rest := pre[0], pre[1..];
      assert (pre + [s] + post)[1..] == rest + [s] + post;
      Hoist(Apply(inv, e), rest, s, post);
      var front := [e] + ([s] + rest + post);
      assert front[1..] == [s] + rest + post;
      assert LedgerOK(inv, front) && Replay(inv, front) == Replay(inv, pre + [s] + post);
      assert front == [e, s] + (rest + post);
      SwapAdjacent(inv, e, s, rest + post);
      assert [s, e] + (rest + post) == [s] + pre + post;
    }
  }

  // ----- publishing a selection

  /** The mutations of the ledger that carry one of the identifiers, in ledger order. */
  function Chosen(ms: seq<PendingMutation>, ids: set<string>): seq<PendingMutation> {
    if ms == [] then []
    else Chosen(ms[..|ms| - 1], ids) + if ms[|ms| - 1].id in ids then [ms[|ms| - 1]] else []
  }

  /** The mutations that stay pending, in ledger order. */
  function Remaining(ms: seq<PendingMutation>, ids: set<string>): seq<PendingMutation> {
    if ms == [] then []
    else Remaining(ms[..|ms| - 1], ids) + if ms[|ms| - 1].id in ids then [] else [ms[|ms| - 1]]
  }

  /** No chosen mutation depends on an earlier one that stays behind. */
  ghost predicate DependencyClosed(ms: seq<PendingMutation>, ids: set<string>) {
    forall i, j :: 0 <= i < j < |ms| && ms[j].id in ids && ms[i].id !in ids ==> !DependsOn(ms[i], ms[j])
  }

  lemma {:induction false} RemainingMembers(ms: seq<PendingMutation>, ids: set<string>)
    ensures forall k :: 0 <= k < |Remaining(ms, ids)| ==> Remaining(ms, ids)[k].id !in ids && Remaining(ms, ids)[k] in ms
  {
    if ms != [] {
      RemainingMembers(ms[..|ms| - 1], ids);
    }
  }

  lemma RestHoldsNothingBack(init: seq<PendingMutation>, last: PendingMutation, ids: set<string>)
    requires DependencyClosed(init + [last], ids) && last.id in ids
    ensures forall k :: 0 <= k < |Remaining(init, ids)| ==> !DependsOn(Remaining(init, ids)[k], last)
  {
    var ms, remaining := init + [last], Remaining(init, ids);
    RemainingMembers(init, ids);
    forall k | 0 <= k < |remaining| ensures !DependsOn(remaining[k], last) {
      var i :| 0 <= i < |init| && init[i] == remaining[k];
      assert ms[i] == init[i] && ms[|init|] == last;
    }
  }

  /** The stable partition of a faithful ledger by a dependency-closed choice is
      faithful and leads to the same inventory. */
  lemma {:induction false} Partition(inv: Inv, ms: seq<PendingMutation>, ids: set<string>)
    requires LedgerOK(inv, ms) && DependencyClosed(ms, ids)
    ensures LedgerOK(inv, Chosen(ms, ids) + Remaining(ms, ids))
    ensures Replay(inv, Chosen(ms, ids) + Remaining(ms, ids)) == Replay(inv, ms)
    decreases |ms|
  {
    if ms != [] {
      var init, last := ms[..|ms| - 1], ms[|ms| - 1];
      var chosen, remaining := Chosen(init, ids), Remaining(init, ids);
      assert ms == init + [last];
      LedgerConcat(inv, init, [last]);
      ReplayConcat(inv, init, [last]);
      Partition(inv, init, ids);
      LedgerConcat(inv, chosen + remaining, [last]);
      ReplayConcat(inv, chosen + remaining, [last]);
      if last.id in ids {
        RestHoldsNothingBack(init, last, ids);
        HoistOver(inv, chosen, remaining, last);
        assert chosen + [last] + remaining == Chosen(ms, ids) + Remaining(ms, ids);
      } else {
        assert chosen + remaining + [last] == Chosen(ms, ids) + Remaining(ms, ids);
      }
    }
  }

  lemma HoistOver(inv: Inv, chosen: seq<PendingMutation>, remaining: seq<PendingMutation>, last: PendingMutation)
    requires LedgerOK(inv, chosen + remaining + [last])
    requires forall k :: 0 <= k < |remaining| ==> !DependsOn(remaining[k], last)
    ensures LedgerOK(inv, chosen + [last] + remaining)
    ensures Replay(inv, chosen + [last] + remaining) == Replay(inv, chosen + remaining + [last])
  {
    var before, after := remaining + [last] + [], [last] + remaining + [];
    assert chosen + remaining + [last] == chosen + before;
    assert chosen + [last] + remaining == chosen + after;
    LedgerConcat(inv, chosen, before);
    ReplayConcat(inv, chosen, before);
    Hoist(Replay(inv, chosen), remaining, last, []);
    LedgerConcat(inv, chosen, after);
    ReplayConcat(inv, chosen, after);
  }

  /** Publishing a dependency-closed choice: the projection is closed, and what
      stays pending is a faithful ledger over it that replays to the same local
      inventory. */
  lemma Rebase(base: Inv, ms: seq<PendingMutation>, ids: set<string>)
    requires Closed(base) && LedgerOK(base, ms) && DependencyClosed(ms, ids)
    ensures LedgerOK(base, Chosen(ms, ids))
    ensures Closed(Replay(base, Chosen(ms, ids)))
    ensures LedgerOK(Replay(base, Chosen(ms, ids)), Remaining(ms, ids))
    ensures Replay(Replay(base, Chosen(ms, ids)), Remaining(ms, ids)) == Replay(base, ms)
  {
    var chosen, remaining := Chosen(ms, ids), Remaining(ms, ids);
    Partition(base, ms, ids);
    LedgerConcat(base, chosen, remaining);
    ReplayConcat(base, chosen, remaining);
    ReplayClosed(base, chosen, |chosen|);
    assert chosen[..|chosen|] == chosen;
  }

  // ----- publishing one mutation

  ghost predicate Accepted(ms: seq<PendingMutation>, k: int)
    requires 0 <= k < |ms|
  {
    forall i :: 0 <= i < k ==> !DependsOn(ms[i], ms[k])
  }

  /** The saved key a connection authenticates with, if it names one. */
  function KeyMaterial(inv: Inv, alias: string): Option<string> {
    if alias in inv.conns && inv.conns[alias].keyName != "" then Get(inv.keys, inv.conns[alias].keyName) else None
  }

  lemma FirstApplied(base: Inv, s: PendingMutation, rest: seq<PendingMutation>)
    requires LedgerOK(base, [s] + rest)
    ensures StepOK(base, s) && LedgerOK(Apply(base, s), rest)
    ensures Replay(Apply(base, s), rest) == Replay(base, [s] + rest)
  {
    assert ([s] + rest)[1..] == rest;
  }

  lemma OtherAliasUntouched(base: Inv, s: PendingMutation, c: string)
    requires !IsBulk(s) && WellFormed(s) && Isolated(base, s) && !(IsHost(s) && c == s.alias)
    ensures Get(Apply(base, s).conns, c) == Get(base.conns, c) && KeyMaterial(Apply(base, s), c) == KeyMaterial(base, c)
  {
    ApplyAt(base, s);
    assert Get(Apply(base, s).conns, c) == Get(base.conns, c);
    if c in base.conns {
      assert Get(Apply(base, s).keys, base.conns[c].keyName) == Get(base.keys, base.conns[c].keyName);
    }
  }

  /** An accepted mutation, published alone: nothing dangles, no other alias
      changes, and the rest of the ledger carries on from the new base. */
  lemma PublishOne(base: Inv, ms: seq<PendingMutation>, k: int)
    requires Closed(base) && LedgerOK(base, ms) && 0 <= k < |ms| && Accepted(ms, k)
    ensures Closed(Apply(base, ms[k]))
    ensures !IsBulk(ms[k]) ==> forall c :: !(IsHost(ms[k]) && c == ms[k].alias) ==>
      Get(Apply(base, ms[k]).conns, c) == Get(base.conns, c) && KeyMaterial(Apply(base, ms[k]), c) == KeyMaterial(base, c)
    ensures LedgerOK(Apply(base, ms[k]), ms[..k] + ms[k + 1..])
    ensures Replay(Apply(base, ms[k]), ms[..k] + ms[k + 1..]) == Replay(base, ms)
  {
    var s, pre, post := ms[k], ms[..k], ms[k + 1..];
    assert ms == pre + [s] + post;
    Hoist(base, pre, s, post);
    HoistedFirst(base, s, pre, post);
    if !IsBulk(s) { OthersUntouched(base, s); }
  }

  lemma HoistedFirst(base: Inv, s: PendingMutation, pre: seq<PendingMutation>, post: seq<PendingMutation>)
    requires LedgerOK(base, [s] + pre + post)
    ensures StepOK(base, s) && LedgerOK(Apply(base, s), pre + post)
    ensures Replay(Apply(base, s), pre + post) == Replay(base, [s] + pre + post)
  {
    assert [s] + pre + post == [s] + (pre + post);
    FirstApplied(base, s, pre + post);
  }

  lemma OthersUntouched(base: Inv, s: PendingMutation)
    requires !IsBulk(s) && WellFormed(s) && Isolated(base, s)
    ensures forall c :: !(IsHost(s) && c == s.alias) ==>
      Get(Apply(base, s).conns, c) == Get(base.conns, c) && KeyMaterial(Apply(base, s), c) == KeyMaterial(base, c)
  {
    forall c | !(IsHost(s) && c == s.alias)
      ensures Get(Apply(base, s).conns, c) == Get(base.conns, c) && KeyMaterial(Apply(base, s), c) == KeyMaterial(base, c)
    {
      OtherAliasUntouched(base, s, c);
    }
  }

  lemma {:induction false} LedgerWellFormed(inv: Inv, ms: seq<PendingMutation>)
    requires LedgerOK(inv, ms)
    ensures forall k :: 0 <= k < |ms| ==> WellFormed(ms[k])
    decreases |ms|
  {
    if ms != [] {
      LedgerWellFormed(Apply(inv, ms[0]), ms[1..]);
      forall k | 0 <= k < |ms| ensures WellFormed(ms[k]) {
        if k > 0 { assert ms[k] == ms[1..][k - 1]; }
      }
    }
  }
}
