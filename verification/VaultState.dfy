/** A whole vault as a value, and the invariant every inventory operation and
    every finalized publication keeps.
 */
module VaultState {
  import opened Inventory
  import opened Ledger
  import opened Dependencies

  datatype State = State(current: Snapshot, base: Option<Snapshot>, ledger: seq<PendingMutation>)

  function BaseOf(v: State): Snapshot {
    if v.base.Some? then v.base.value else v.current
  }

  /** No record is named by the empty string, which the ledger uses for "no alias"
      and "no key". */
  ghost predicate NamesPresent(inv: Inv) {
    "" !in inv.conns && "" !in inv.keys
  }

  /** Replaying the whole ledger over its base gives the current inventory, every
      step of the replay is faithfully recorded, and no connection dangles. */
  ghost predicate Coherent(v: State) {
    && ValidLedger(v.base, v.ledger)
    && UniqueSnapshot(v.current) && UniqueSnapshot(BaseOf(v))
    && NamesPresent(View(v.current))
    && Closed(View(v.current)) && Closed(View(BaseOf(v)))
    && LedgerOK(View(BaseOf(v)), v.ledger)
    && Replay(View(BaseOf(v)), v.ledger) == View(v.current)
  }

  ghost predicate FreshId(v: State, id: string) {
    id != "" && forall k :: 0 <= k < |v.ledger| ==> v.ledger[k].id != id
  }

  /** One inventory operation: `w` is `v` with one recorded mutation appended and
      carried out. */
  ghost predicate Mutates(v: State, w: State) {
    && w.ledger != [] && w.ledger[..|w.ledger| - 1] == v.ledger
    && w.base == Some(BaseOf(v))
    && var m := w.ledger[|w.ledger| - 1];
    && FreshId(v, m.id) && StepOK(View(v.current), m)
    && UniqueSnapshot(w.current) && NamesPresent(View(w.current))
    && View(w.current) == Apply(View(v.current), m)
  }

  /** An inventory operation keeps the vault coherent. */
  lemma MutateKeepsCoherent(v: State, w: State)
    requires Coherent(v) && Mutates(v, w)
    ensures Coherent(w) && BaseOf(w) == BaseOf(v)
  {
    var base, m := View(BaseOf(v)), w.ledger[|w.ledger| - 1];
    assert w.ledger == v.ledger + [m];
    LedgerConcat(base, v.ledger, [m]);
    ReplayConcat(base, v.ledger, [m]);
    assert Replay(View(v.current), [m]) == Apply(View(v.current), m);
  }

  function Finalized(v: State, ids: set<string>, projected: Snapshot): State {
    var left := Remaining(v.ledger, ids);
    State(v.current, if left == [] then None else Some(projected), left)
  }

  /** Finalizing a dependency-closed publication keeps the vault coherent and does
      not touch the current inventory; with nothing left pending, the published
      inventory is the current one. */
  lemma FinalizeKeepsCoherent(v: State, ids: set<string>, projected: Snapshot)
    requires Coherent(v) && DependencyClosed(v.ledger, ids)
    requires UniqueSnapshot(projected) && View(projected) == Replay(View(BaseOf(v)), Chosen(v.ledger, ids))
    ensures Coherent(Finalized(v, ids, projected))
    ensures View(BaseOf(Finalized(v, ids, projected))) == View(projected)
    ensures Finalized(v, ids, projected).current == v.current
  {
    var left := Remaining(v.ledger, ids);
    Rebase(View(BaseOf(v)), v.ledger, ids);
    RemainingMembers(v.ledger, ids);
    forall k | 0 <= k < |left| ensures left[k].id != "" {
      var i :| 0 <= i < |v.ledger| && v.ledger[i] == left[k];
    }
    forall p, q | 0 <= p < q < |left| ensures left[p].id != left[q].id {
      var i, j := RemainingOrder(v.ledger, ids, p, q);
    }
  }

  // ----- selections

  function IdsOf(ms: seq<PendingMutation>): set<string> {
    set k | 0 <= k < |ms| :: ms[k].id
  }

  function IdSet(ids: seq<string>): set<string> {
    set k | 0 <= k < |ids| :: ids[k]
  }

  /** `selected` are the mutations at ascending places. */
  ghost predicate AtPlaces(ms: seq<PendingMutation>, places: seq<nat>, selected: seq<PendingMutation>) {
    Ascending(places) && |selected| == |places|
    && forall k :: 0 <= k < |places| ==> places[k] < |ms| && selected[k] == ms[places[k]]
  }

  lemma AtPlacesShorter(ms: seq<PendingMutation>, places: seq<nat>, selected: seq<PendingMutation>, init: seq<PendingMutation>)
    requires ms != [] && init == ms[..|ms| - 1] && AtPlaces(ms, places, selected)
    ensures var n := |places|;
      if n > 0 && places[n - 1] == |ms| - 1 then AtPlaces(init, places[..n - 1], selected[..n - 1])
      else AtPlaces(init, places, selected)
  {
    var n := |places|;
    forall k | 0 <= k < n - 1 ensures places[k] < |init| {
      assert places[k] < places[n - 1];
    }
  }

  lemma IdsOfOneMore(ms: seq<PendingMutation>, last: PendingMutation)
    ensures IdsOf(ms + [last]) == IdsOf(ms) + {last.id}
  {
    var all := ms + [last];
    assert all[|ms|] == last;
    forall k | 0 <= k < |ms| ensures all[k] == ms[k] {
    }
  }

  lemma LastNotSelected(ms: seq<PendingMutation>, places: seq<nat>, selected: seq<PendingMutation>)
    requires UniqueIds(ms) && ms != [] && AtPlaces(ms[..|ms| - 1], places, selected)
    ensures ms[|ms| - 1].id !in IdsOf(selected)
  {
    forall k | 0 <= k < |selected| ensures selected[k].id != ms[|ms| - 1].id {
      assert selected[k] == ms[places[k]] && places[k] < |ms| - 1;
    }
  }

  lemma ChosenWithLast(ms: seq<PendingMutation>, init: seq<PendingMutation>, last: PendingMutation,
                       shorter: seq<PendingMutation>, selected: seq<PendingMutation>)
    requires UniqueIds(ms) && ms != [] && init == ms[..|ms| - 1] && last == ms[|ms| - 1]
    requires Chosen(init, IdsOf(shorter)) == shorter && selected == shorter + [last]
    ensures Chosen(ms, IdsOf(selected)) == selected
  {
    IdsOfOneMore(shorter, last);
    ChosenIgnores(init, IdsOf(shorter), last.id);
  }

  /** The mutations at ascending places are the ones their identifiers choose. */
  lemma {:induction false} ChosenAtPlaces(ms: seq<PendingMutation>, places: seq<nat>, selected: seq<PendingMutation>)
    requires UniqueIds(ms) && AtPlaces(ms, places, selected)
    ensures Chosen(ms, IdsOf(selected)) == selected
    decreases |ms|
  {
    assert |places| > 0 ==> places[0] < |ms|;
    if ms != [] {
      var init, last, n := ms[..|ms| - 1], ms[|ms| - 1], |places|;
      AtPlacesShorter(ms, places, selected, init);
      if n > 0 && places[n - 1] == |ms| - 1 {
        var shorter := selected[..n - 1];
        ChosenAtPlaces(init, places[..n - 1], shorter);
        ChosenWithLast(ms, init, last, shorter, selected);
      } else {
        ChosenAtPlaces(init, places, selected);
        LastNotSelected(ms, places, selected);
      }
    }
  }

  lemma {:induction false} ChosenIgnores(ms: seq<PendingMutation>, ids: set<string>, id: string)
    requires forall k :: 0 <= k < |ms| ==> ms[k].id != id
    ensures Chosen(ms, ids + {id}) == Chosen(ms, ids)
    decreases |ms|
  {
    if ms != [] { ChosenIgnores(ms[..|ms| - 1], ids, id); }
  }

  /** One mutation is a dependency-closed choice exactly when preflight accepts it. */
  lemma OnlyIsClosed(ms: seq<PendingMutation>, k: nat)
    requires UniqueIds(ms) && k < |ms|
    ensures DependencyClosed(ms, {ms[k].id}) <==> Accepted(ms, k)
  {
    if DependencyClosed(ms, {ms[k].id}) {
      forall i | 0 <= i < k ensures !DependsOn(ms[i], ms[k]) {
        assert ms[i].id !in {ms[k].id};
      }
    }
  }

  // ----- publishing one after another

  /** The vault after the given mutations were published and finalized one after another. */
  ghost function InTurn(v: State, ids: seq<string>, projected: seq<Snapshot>): State
    requires |ids| == |projected|
  {
    if ids == [] then v
    else
      var n := |ids| - 1;
      Finalized(InTurn(v, ids[..n], projected[..n]), {ids[n]}, projected[n])
  }

  lemma {:induction false} RemainingTwice(ms: seq<PendingMutation>, ids: set<string>, id: string)
    ensures Remaining(Remaining(ms, ids), {id}) == Remaining(ms, ids + {id})
    decreases |ms|
  {
    if ms != [] {
      var init, last := ms[..|ms| - 1], ms[|ms| - 1];
      RemainingTwice(init, ids, id);
      var before := Remaining(init, ids);
      assert before + [] == before;
      if last.id !in ids {
        var both := before + [last];
        assert Remaining(ms, ids) == both;
        assert both[..|both| - 1] == before && both[|both| - 1] == last;
      }
    }
  }

  function IdsAt(ms: seq<PendingMutation>, places: seq<nat>): (ids: seq<string>)
    requires forall k :: 0 <= k < |places| ==> places[k] < |ms|
    ensures |ids| == |places| && forall k :: 0 <= k < |places| ==> ids[k] == ms[places[k]].id
  {
    seq(|places|, k requires 0 <= k < |places| => ms[places[k]].id)
  }

  lemma InTurnLast(v: State, ids: seq<string>, projected: seq<Snapshot>, n: nat)
    requires |ids| == |projected| && 0 < n <= |ids|
    ensures InTurn(v, ids[..n], projected[..n])
         == Finalized(InTurn(v, ids[..n - 1], projected[..n - 1]), {ids[n - 1]}, projected[n - 1])
  {
    var done, shown := ids[..n], projected[..n];
    assert done[..n - 1] == ids[..n - 1] && shown[..n - 1] == projected[..n - 1];
  }

  lemma {:induction false} LedgerInTurn(v: State, places: seq<nat>, projected: seq<Snapshot>, n: nat)
    requires n <= |places| == |projected| && forall k :: 0 <= k < |places| ==> places[k] < |v.ledger|
    ensures InTurn(v, IdsAt(v.ledger, places)[..n], projected[..n]).ledger == Remaining(v.ledger, FirstIds(v.ledger, places, n))
  {
    var ids := IdsAt(v.ledger, places);
    if n == 0 {
      NothingRemoved(v.ledger);
      assert FirstIds(v.ledger, places, 0) == {};
    } else {
      LedgerInTurn(v, places, projected, n - 1);
      InTurnLast(v, ids, projected, n);
      OneMoreId(v.ledger, places, n - 1, ids[n - 1]);
      OneMoreGone(v.ledger, FirstIds(v.ledger, places, n - 1), ids[n - 1], FirstIds(v.ledger, places, n));
    }
  }

  lemma OneMoreId(ms: seq<PendingMutation>, places: seq<nat>, n: nat, id: string)
    requires n < |places| && (forall k :: 0 <= k < |places| ==> places[k] < |ms|) && id == ms[places[n]].id
    ensures FirstIds(ms, places, n + 1) == FirstIds(ms, places, n) + {id}
  {
    var fewer, more := FirstIds(ms, places, n), FirstIds(ms, places, n + 1);
    forall x | x in more ensures x in fewer + {id} {
    }
    forall x | x in fewer + {id} ensures x in more {
    }
  }

  lemma OneMoreGone(ms: seq<PendingMutation>, ids: set<string>, id: string, more: set<string>)
    requires more == ids + {id}
    ensures Remaining(Remaining(ms, ids), {id}) == Remaining(ms, more)
  {
    RemainingTwice(ms, ids, id);
  }

  lemma {:induction false} NothingRemoved(ms: seq<PendingMutation>)
    ensures Remaining(ms, {}) == ms
  {
    if ms != [] {
      NothingRemoved(ms[..|ms| - 1]);
      assert ms == ms[..|ms| - 1] + [ms[|ms| - 1]];
    }
  }

  /** What a publication of one mutation projects. */
  ghost predicate Projects(v: State, id: string, projected: Snapshot) {
    UniqueSnapshot(projected) && View(projected) == Replay(View(BaseOf(v)), Chosen(v.ledger, {id}))
  }

  lemma PublishableIsClosed(v: State, id: string)
    requires UniqueIds(v.ledger) && Publishable(v.ledger, id)
    ensures DependencyClosed(v.ledger, {id})
  {
    PendingIndexFinds(v.ledger, id);
    OnlyIsClosed(v.ledger, PendingIndex(v.ledger, id).value);
  }

  /** Publishing the required mutations in the order of the list and then the selected one: preflight
      passes before each of these publications, and the vault stays coherent throughout. */
  lemma {:induction false} RequiredInTurn(v: State, selectedIndex: nat, places: seq<nat>, projected: seq<Snapshot>, n: nat)
    requires Coherent(v) && selectedIndex < |v.ledger| && PrerequisitesOf(v.ledger, selectedIndex, places)
    requires n <= |places| == |projected| && forall k :: 0 <= k < |places| ==> places[k] < |v.ledger|
    requires var ids := IdsAt(v.ledger, places);
      forall k :: 0 <= k < n ==> Projects(InTurn(v, ids[..k], projected[..k]), ids[k], projected[k])
    ensures var ids := IdsAt(v.ledger, places);
      var now := InTurn(v, ids[..n], projected[..n]);
      && Coherent(now) && now.current == v.current
      && Publishable(now.ledger, if n < |places| then ids[n] else v.ledger[selectedIndex].id)
  {
    var ids := IdsAt(v.ledger, places);
    LedgerInTurn(v, places, projected, n);
    PrerequisitesSuffice(v.ledger, selectedIndex, places, n);
    if n > 0 {
      RequiredInTurn(v, selectedIndex, places, projected, n - 1);
      var before := InTurn(v, ids[..n - 1], projected[..n - 1]);
      InTurnLast(v, ids, projected, n);
      PublishableIsClosed(before, ids[n - 1]);
      FinalizeKeepsCoherent(before, {ids[n - 1]}, projected[n - 1]);
    }
  }
}
