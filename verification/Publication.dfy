/** The publication protocol: one durable intent, one publication session at a
    time, a remote register written conditionally, and a crash at any point.

    Encrypted blobs are identified by themselves, so a blob identity is injective.
 */
module Publication {
  import opened Inventory
  import opened Ledger
  import opened Dependencies
  import opened VaultState
  import opened Vaults

  datatype Blob = Blob(inventory: Inv, nonce: nat)

  datatype IntentState = Prepared | Ready | Ambiguous | Divergent | FinalizationFailed

  datatype Intent = Intent(state: IntentState, scopeOnly: bool, ids: seq<string>,
                           prerequisite: Option<Blob>, target: Blob, observed: Option<Blob>)

  /** A conditional write on its way to the server. */
  datatype Request = Request(target: Blob, prerequisite: Option<Blob>)

  /** How far the process holding the publication lock has come. */
  datatype Pc =
    | Idle
    | StatusOpened
    | Opened(only: string, loaded: State)
    | Resumed(only: string, loaded: State, ids: seq<string>)
    | Scoped(intent: Intent)
    | PreparedSaved(intent: Intent)
    | PrerequisiteKnown(intent: Intent)
    | ReadySaved(intent: Intent)
    | Sent(intent: Intent)
    | Confirmed(intent: Intent)
    | Finalizing(intent: Intent)
    | Saved(intent: Intent)

  /** The durable state, the network, the running session, and the history the
      theorems speak about: `held` is every blob the register ever held, `seen`
      those the client learned of, `sent` the targets in the order they were sent. */
  datatype World = World(
    vault: State, intent: Option<Intent>, cached: Option<Blob>,
    remote: Option<Blob>, wire: set<Request>, pc: Pc,
    held: set<Blob>, seen: set<Blob>, sent: seq<Blob>, minted: set<Blob>, usedIds: set<string>)

  datatype Event =
    | Mutate(vault: State)
    | OpenPublish(only: string)
    | OpenStatus
    | ReconcilePrepared(durable: bool)
    | ReconcileFinalizationFailed
    | ReconcileObserve(durable: bool)
    | Scope(ids: seq<string>, target: Blob)
    | SavePrepared
    | Prepare
    | PrepareFailed(durable: bool)
    | SaveReady
    | SendFoundTarget
    | SendRequest
    | SendRefused(durable: bool)
    | SendConflict(durable: bool, read: bool)
    | SendAmbiguous(durable: bool)
    | SendConfirmed
    | Deliver(request: Request)
    | ForeignWrite(blob: Option<Blob>)
    | RefreshCache
    | BeginFinalize
    | AlreadyFinalized
    | SaveFinalized(projected: Snapshot)
    | FinalizeFailed(durable: bool)
    | Complete(noted: bool)
    | Stop

  function Some1(b: Option<Blob>): set<Blob> {
    if b.Some? then {b.value} else {}
  }

  function LedgerIds(ms: seq<PendingMutation>): seq<string> {
    seq(|ms|, i requires 0 <= i < |ms| => ms[i].id)
  }

  predicate MatchesRecovery(only: string, intent: Intent) {
    if only == "" then !intent.scopeOnly else intent.ids == [only]
  }

  /** The identifiers a publication of the loaded vault selects. */
  ghost predicate Selects(pc: Pc, ids: seq<string>) {
    match pc
    case Opened(only, v) => if only == "" then ids == LedgerIds(v.ledger) else Publishable(v.ledger, only) && ids == [only]
    case Resumed(only, v, recorded) =>
      if only == "" then AllPending(v.ledger, recorded) && ids == recorded else Publishable(v.ledger, only) && ids == [only]
    case _ => false
  }

  predicate VaultLocked(w: World) { w.pc.Finalizing? || w.pc.Saved? }

  predicate InSession(w: World) { w.pc.Opened? || w.pc.StatusOpened? }

  /** The refreshed cache still names the blob the register holds. */
  predicate PrerequisiteAgrees(w: World) { w.cached == w.remote }

  ghost predicate Enabled(w: World, e: Event) {
    match e
    case Mutate(v) => !VaultLocked(w) && Mutates(w.vault, v) && v.ledger[|v.ledger| - 1].id !in w.usedIds
    case OpenPublish(_) => w.pc.Idle?
    case OpenStatus => w.pc.Idle?
    case ReconcilePrepared(_) => InSession(w) && w.intent.Some? && w.intent.value.state == Prepared
    case ReconcileFinalizationFailed => InSession(w) && w.intent.Some? && w.intent.value.state == FinalizationFailed
    case ReconcileObserve(_) => InSession(w) && w.intent.Some? && w.intent.value.state in {Ready, Ambiguous, Divergent}
    case Scope(ids, target) =>
      && w.intent.None? && Selects(w.pc, ids) && ids != [] && target !in w.minted
      && target.inventory == Replay(View(BaseOf(w.pc.loaded)), Chosen(w.pc.loaded.ledger, IdSet(ids)))
    case SavePrepared => w.pc.Scoped?
    case Prepare => w.pc.PreparedSaved? && PrerequisiteAgrees(w)
    case PrepareFailed(_) => w.pc.PreparedSaved?
    case SaveReady => w.pc.PrerequisiteKnown?
    case SendFoundTarget => w.pc.ReadySaved? && w.remote == Some(w.pc.intent.target)
    case SendRequest => w.pc.ReadySaved? && w.remote != Some(w.pc.intent.target) && w.remote == w.pc.intent.prerequisite
    case SendRefused(_) => w.pc.ReadySaved? || w.pc.Sent?
    case SendConflict(_, read) => w.pc.Sent? || (w.pc.ReadySaved? && read && w.remote != w.pc.intent.prerequisite)
    case SendAmbiguous(_) => w.pc.Sent?
    case SendConfirmed => w.pc.Sent? && w.pc.intent.target in w.held
    case Deliver(request) => request in w.wire
    case ForeignWrite(blob) => blob.Some? && blob.value in w.minted ==> blob.value in w.held
    case RefreshCache => true
    case BeginFinalize => w.pc.Confirmed?
    case AlreadyFinalized => w.pc.Finalizing? && AllMissing(w.vault.ledger, w.pc.intent.ids)
    case SaveFinalized(projected) =>
      && w.pc.Finalizing? && AllPending(w.vault.ledger, w.pc.intent.ids) && w.pc.intent.ids != []
      && UniqueSnapshot(projected)
      && View(projected) == Replay(View(BaseOf(w.vault)), Chosen(w.vault.ledger, IdSet(w.pc.intent.ids)))
    case FinalizeFailed(_) => w.pc.Confirmed? || w.pc.Finalizing? || w.pc.Saved?
    case Complete(_) => w.pc.Saved?
    case Stop => true
  }

  function RequestOf(intent: Intent): Request {
    Request(intent.target, intent.prerequisite)
  }

  function Learned(w: World): World {
    w.(seen := w.seen + Some1(w.remote))
  }

  /** The recorded scope goes back to pending: a publication of the same scope
      continues with it, any other run of the session ends. */
  function BackToPending(w: World): World
    requires InSession(w) && w.intent.Some?
  {
    w.(intent := None,
       pc := if w.pc.Opened? && MatchesRecovery(w.pc.only, w.intent.value)
             then Resumed(w.pc.only, w.pc.loaded, w.intent.value.ids) else Idle)
  }

  /** The session ends; the intent file is replaced if the write lands. */
  function EndWith(w: World, durable: bool, intent: Option<Intent>): World {
    w.(intent := if durable then intent else w.intent, pc := Idle)
  }

  function WriteRemote(w: World, blob: Option<Blob>): World {
    w.(remote := blob, held := w.held + Some1(blob))
  }

  ghost function Next(w: World, e: Event): World
    requires Enabled(w, e)
  {
    match e
    case Mutate(v) => w.(vault := v, usedIds := w.usedIds + {v.ledger[|v.ledger| - 1].id})
    case OpenPublish(only) => w.(pc := Opened(only, w.vault))
    case OpenStatus => w.(pc := StatusOpened)
    case ReconcilePrepared(durable) => if durable then BackToPending(w) else w.(pc := Idle)
    case ReconcileFinalizationFailed => w.(pc := Confirmed(w.intent.value))
    case ReconcileObserve(durable) =>
      var i := w.intent.value;
      if w.remote == Some(i.target) then Learned(w).(pc := Confirmed(i))
      else if w.remote == i.prerequisite then (if durable then BackToPending(Learned(w)) else Learned(w).(pc := Idle))
      else EndWith(Learned(w), durable, Some(i.(state := Divergent, observed := w.remote)))
    case Scope(ids, target) =>
      w.(pc := Scoped(Intent(Prepared, w.pc.only != "", ids, w.cached, target, None)), minted := w.minted + {target})
    case SavePrepared => w.(intent := Some(w.pc.intent), pc := PreparedSaved(w.pc.intent))
    case Prepare => Learned(w).(pc := PrerequisiteKnown(w.pc.intent.(state := Ready, prerequisite := w.remote)))
    case PrepareFailed(durable) => EndWith(w, durable, None)
    case SaveReady => w.(intent := Some(w.pc.intent), pc := ReadySaved(w.pc.intent))
    case SendFoundTarget => Learned(w).(pc := Confirmed(w.pc.intent))
    case SendRequest => Learned(w).(wire := w.wire + {RequestOf(w.pc.intent)}, sent := w.sent + [w.pc.intent.target], pc := Sent(w.pc.intent))
    case SendRefused(durable) => EndWith(w, durable, None)
    case SendConflict(durable, read) =>
      var observed := if read then w.remote else w.pc.intent.prerequisite;
      EndWith(if read then Learned(w) else w, durable, Some(w.pc.intent.(state := Divergent, observed := observed)))
    case SendAmbiguous(durable) => EndWith(w, durable, Some(w.pc.intent.(state := Ambiguous)))
    case SendConfirmed => w.(seen := w.seen + {w.pc.intent.target}, pc := Confirmed(w.pc.intent))
    case Deliver(request) =>
      var after := w.(wire := w.wire - {request});
      if w.remote == request.prerequisite then WriteRemote(after, Some(request.target)) else after
    case ForeignWrite(blob) => WriteRemote(w, blob).(minted := w.minted + Some1(blob))
    case RefreshCache => Learned(w).(cached := w.remote)
    case BeginFinalize => w.(pc := Finalizing(w.pc.intent))
    case AlreadyFinalized => w.(pc := Saved(w.pc.intent))
    case SaveFinalized(projected) => w.(vault := Finalized(w.vault, IdSet(w.pc.intent.ids), projected), pc := Saved(w.pc.intent))
    case FinalizeFailed(durable) => EndWith(w, durable, Some(w.pc.intent.(state := FinalizationFailed)))
    case Complete(noted) => w.(cached := if noted then Some(w.pc.intent.target) else w.cached, intent := None, pc := Idle)
    case Stop => w.(pc := Idle)
  }

  // ----- the invariant

  /** Nothing of the scope is finalized, and the target is its projection. */
  ghost predicate Active(v: State, i: Intent) {
    && AllPending(v.ledger, i.ids) && DependencyClosed(v.ledger, IdSet(i.ids))
    && i.target.inventory == Replay(View(BaseOf(v)), Chosen(v.ledger, IdSet(i.ids)))
  }

  /** The scope is pending as a whole, or finalized as a whole after the target
      was seen in the register. */
  ghost predicate Linked(w: World, i: Intent) {
    && i.ids != [] && IdSet(i.ids) <= w.usedIds && i.target in w.minted
    && (Active(w.vault, i) || (AllMissing(w.vault.ledger, i.ids) && i.target in w.seen))
  }

  predicate Unsent(w: World, target: Blob) {
    target !in w.sent && target !in w.held && forall r :: r in w.wire ==> r.target != target
  }

  ghost predicate IntentOK(w: World, i: Intent) {
    && Linked(w, i)
    && (i.state == Prepared ==> Unsent(w, i.target))
    && (i.state == FinalizationFailed ==> i.target in w.seen)
  }

  predicate OnDisk(w: World, i: Intent) {
    w.intent.Some? && w.intent.value.ids == i.ids && w.intent.value.target == i.target
  }

  /** The loaded vault is the stored one before the mutations appended since. */
  ghost predicate Earlier(v: State, current: State) {
    BaseOf(v) == BaseOf(current) && v.ledger <= current.ledger
  }

  ghost predicate PcOK(w: World) {
    match w.pc
    case Idle => true
    case StatusOpened => true
    case Opened(_, v) => Earlier(v, w.vault)
    case Resumed(_, v, ids) =>
      && w.intent.None? && Earlier(v, w.vault)
      && (AllMissing(w.vault.ledger, ids) || DependencyClosed(w.vault.ledger, IdSet(ids)))
      && ids != [] && IdSet(ids) <= w.usedIds
    case Scoped(i) => w.intent.None? && Linked(w, i) && Active(w.vault, i) && Unsent(w, i.target) && i.state == Prepared
    case PreparedSaved(i) => w.intent == Some(i) && Active(w.vault, i) && i.state == Prepared
    case PrerequisiteKnown(i) => OnDisk(w, i) && Linked(w, i) && Active(w.vault, i) && Unsent(w, i.target) && i.state == Ready
    case ReadySaved(i) => w.intent == Some(i) && Active(w.vault, i) && Unsent(w, i.target) && i.state == Ready
    case Sent(i) => w.intent == Some(i) && Active(w.vault, i) && i.state == Ready
    case Confirmed(i) => OnDisk(w, i) && Linked(w, i) && i.target in w.seen
    case Finalizing(i) => OnDisk(w, i) && Linked(w, i) && i.target in w.seen
    case Saved(i) => OnDisk(w, i) && Linked(w, i) && i.target in w.seen && AllMissing(w.vault.ledger, i.ids)
  }

  ghost predicate SentOnce(sent: seq<Blob>) {
    forall i, j :: 0 <= i < j < |sent| ==> sent[i] != sent[j]
  }

  ghost predicate Safe(w: World) {
    && Coherent(w.vault) && IdsOf(w.vault.ledger) <= w.usedIds
    && Some1(w.remote) <= w.held && w.seen <= w.held && w.held <= w.minted
    && (forall b :: b in w.sent ==> b in w.minted)
    && (forall r :: r in w.wire ==> r.target in w.minted)
    && SentOnce(w.sent)
    && (w.intent.Some? ==> IntentOK(w, w.intent.value))
    && PcOK(w)
  }

  ghost predicate Init(w: World) {
    && Coherent(w.vault) && w.usedIds == IdsOf(w.vault.ledger)
    && w.intent.None? && w.pc.Idle? && w.wire == {} && w.sent == [] && w.seen == {}
    && w.held == Some1(w.remote) && w.minted == w.held
  }

  // ----- ledgers that only grew

  lemma {:induction false} PendingIndexPrefix(a: seq<PendingMutation>, b: seq<PendingMutation>, id: string)
    ensures PendingIndex(a, id).Some? ==> PendingIndex(a + b, id) == PendingIndex(a, id)
    ensures PendingIndex(a, id).None? && PendingIndex(b, id).None? ==> PendingIndex(a + b, id).None?
  {
    if a == [] {
      assert a + b == b;
    } else {
      assert (a + b)[1..] == a[1..] + b;
      PendingIndexPrefix(a[1..], b, id);
    }
  }

  lemma {:induction false} PendingIndexOf(ms: seq<PendingMutation>, k: nat)
    requires UniqueIds(ms) && k < |ms|
    ensures PendingIndex(ms, ms[k].id) == Some(k)
  {
    if k > 0 {
      assert ms[0].id != ms[k].id;
      PendingIndexOf(ms[1..], k - 1);
    }
  }

  lemma {:induction false} ChosenPrefix(a: seq<PendingMutation>, b: seq<PendingMutation>, ids: set<string>)
    requires forall k :: 0 <= k < |b| ==> b[k].id !in ids
    ensures Chosen(a + b, ids) == Chosen(a, ids)
    decreases |b|
  {
    if b == [] {
      assert a + b == a;
    } else {
      assert (a + b)[..|a + b| - 1] == a + b[..|b| - 1];
      ChosenPrefix(a, b[..|b| - 1], ids);
    }
  }

  /** A scope keeps its meaning while mutations are appended. */
  lemma ActiveGrows(v: State, w: State, i: Intent)
    requires Active(v, i) && BaseOf(w) == BaseOf(v) && v.ledger <= w.ledger
    requires forall k :: |v.ledger| <= k < |w.ledger| ==> w.ledger[k].id !in IdSet(i.ids)
    ensures Active(w, i)
  {
    var added := w.ledger[|v.ledger|..];
    assert w.ledger == v.ledger + added;
    forall k | 0 <= k < |i.ids| ensures PendingIndex(w.ledger, i.ids[k]) == PendingIndex(v.ledger, i.ids[k]) {
      PendingIndexPrefix(v.ledger, added, i.ids[k]);
    }
    ChosenPrefix(v.ledger, added, IdSet(i.ids));
    forall a, b | 0 <= a < b < |w.ledger| && w.ledger[b].id in IdSet(i.ids) && w.ledger[a].id !in IdSet(i.ids)
      ensures !DependsOn(w.ledger[a], w.ledger[b])
    {
      assert w.ledger[a] == v.ledger[a] && w.ledger[b] == v.ledger[b];
    }
  }

  lemma MissingGrows(ms: seq<PendingMutation>, m: PendingMutation, ids: seq<string>)
    requires AllMissing(ms, ids) && m.id !in IdSet(ids)
    ensures AllMissing(ms + [m], ids)
  {
    forall k | 0 <= k < |ids| ensures PendingIndex(ms + [m], ids[k]).None? {
      assert ids[k] in IdSet(ids);
      PendingIndexFinds([m], ids[k]);
      PendingIndexPrefix(ms, [m], ids[k]);
    }
  }

  /** A dependency-closed choice stays one when a mutation outside it is appended. */
  lemma ClosedGrows(ms: seq<PendingMutation>, m: PendingMutation, ids: set<string>)
    requires DependencyClosed(ms, ids) && m.id !in ids
    ensures DependencyClosed(ms + [m], ids)
  {
  }

  /** A selection of the loaded ledger that is pending and closed under dependencies. */
  ghost predicate ScopeOf(v: State, ids: seq<string>) {
    AllPending(v.ledger, ids) && DependencyClosed(v.ledger, IdSet(ids))
  }

  lemma OnlyScope(v: State, only: string)
    requires UniqueIds(v.ledger) && Publishable(v.ledger, only)
    ensures ScopeOf(v, [only])
  {
    PendingIndexFinds(v.ledger, only);
    var k := PendingIndex(v.ledger, only).value;
    OnlyIsClosed(v.ledger, k);
    var ids := [only];
    assert ids[0] == v.ledger[k].id;
    assert IdSet(ids) == {v.ledger[k].id};
  }

  /** A publication of one mutation is accepted exactly if that mutation alone is a pending scope that is
      closed under dependencies. */
  lemma OnlySelectedExactly(v: State, only: string, ids: seq<string>)
    requires UniqueIds(v.ledger) && only != ""
    ensures Selects(Opened(only, v), ids) <==> ids == [only] && ScopeOf(v, ids)
  {
    if Publishable(v.ledger, only) { OnlyScope(v, only); }
    if ids == [only] && ScopeOf(v, ids) {
      assert ids[0] == only;
      PendingIndexFinds(v.ledger, only);
      var k := PendingIndex(v.ledger, only).value;
      assert IdSet(ids) == {v.ledger[k].id};
      OnlyIsClosed(v.ledger, k);
    }
  }

  lemma AllScope(v: State, ids: seq<string>)
    requires UniqueIds(v.ledger) && ids == LedgerIds(v.ledger)
    ensures ScopeOf(v, ids)
  {
    forall k | 0 <= k < |ids| ensures PendingIndex(v.ledger, ids[k]) == Some(k) {
      PendingIndexOf(v.ledger, k);
    }
    forall k | 0 <= k < |v.ledger| ensures v.ledger[k].id in IdSet(ids) {
      assert ids[k] == v.ledger[k].id;
    }
  }

  lemma ResumedScope(v: State, current: State, ids: seq<string>)
    requires Earlier(v, current) && ids != [] && AllPending(v.ledger, ids)
    requires AllMissing(current.ledger, ids) || DependencyClosed(current.ledger, IdSet(ids))
    ensures ScopeOf(v, ids)
  {
    var added := current.ledger[|v.ledger|..];
    assert current.ledger == v.ledger + added;
    PendingIndexPrefix(v.ledger, added, ids[0]);
    assert !AllMissing(current.ledger, ids);
    forall a, b | 0 <= a < b < |v.ledger| && v.ledger[b].id in IdSet(ids) && v.ledger[a].id !in IdSet(ids)
      ensures !DependsOn(v.ledger[a], v.ledger[b])
    {
      assert current.ledger[a] == v.ledger[a] && current.ledger[b] == v.ledger[b];
    }
  }

  lemma EarlierUniqueIds(v: State, current: State)
    requires Earlier(v, current) && UniqueIds(current.ledger)
    ensures UniqueIds(v.ledger)
  {
    forall i, j | 0 <= i < j < |v.ledger| ensures v.ledger[i].id != v.ledger[j].id {
      assert current.ledger[i] == v.ledger[i] && current.ledger[j] == v.ledger[j];
    }
  }

  lemma ScopeGrows(v: State, current: State, i: Intent)
    requires Coherent(current) && Earlier(v, current) && ScopeOf(v, i.ids)
    requires i.target.inventory == Replay(View(BaseOf(v)), Chosen(v.ledger, IdSet(i.ids)))
    ensures Active(current, i) && IdSet(i.ids) <= IdsOf(current.ledger)
  {
    forall id | id in IdSet(i.ids) ensures exists j :: 0 <= j < |v.ledger| && v.ledger[j].id == id {
      PendingIndexFinds(v.ledger, id);
    }
    forall j | 0 <= j < |v.ledger| ensures current.ledger[j] == v.ledger[j] {
    }
    ActiveGrows(v, current, i);
  }

  /** What a publication selects in the loaded vault is an active scope of the
      stored one. */
  lemma ScopeIsActive(v: State, current: State, ids: seq<string>, pc: Pc, i: Intent)
    requires Coherent(current) && Earlier(v, current) && Selects(pc, ids) && (pc.Opened? || pc.Resumed?) && pc.loaded == v
    requires pc.Resumed? ==> AllMissing(current.ledger, pc.ids) || DependencyClosed(current.ledger, IdSet(pc.ids))
    requires ids != [] && i.ids == ids
    requires i.target.inventory == Replay(View(BaseOf(v)), Chosen(v.ledger, IdSet(ids)))
    ensures Active(current, i) && IdSet(ids) <= IdsOf(current.ledger)
  {
    EarlierUniqueIds(v, current);
    if pc.only != "" {
      OnlyScope(v, pc.only);
      assert ids == [pc.only];
    } else if pc.Opened? {
      AllScope(v, ids);
    } else {
      ResumedScope(v, current, ids);
    }
    ScopeGrows(v, current, i);
  }

  /** Nothing of a finalized scope stays pending. */
  lemma FinalizedIsMissing(v: State, ids: seq<string>, projected: Snapshot)
    ensures AllMissing(Finalized(v, IdSet(ids), projected).ledger, ids)
  {
    var left := Remaining(v.ledger, IdSet(ids));
    RemainingMembers(v.ledger, IdSet(ids));
    forall k | 0 <= k < |ids| ensures PendingIndex(left, ids[k]).None? {
      assert ids[k] in IdSet(ids);
      PendingIndexFinds(left, ids[k]);
    }
  }

  // ----- every step keeps the invariant

  lemma LinkedGrows(w: World, n: World, i: Intent)
    requires Linked(w, i) && Mutates(w.vault, n.vault) && Coherent(w.vault)
    requires n.vault.ledger[|n.vault.ledger| - 1].id !in w.usedIds
    requires w.usedIds <= n.usedIds && w.seen == n.seen && w.minted == n.minted
    ensures Linked(n, i)
    ensures Active(w.vault, i) ==> Active(n.vault, i)
    ensures AllMissing(w.vault.ledger, i.ids) ==> AllMissing(n.vault.ledger, i.ids)
  {
    ScopeGrowsByOne(w.vault, n.vault, w.usedIds, i);
  }

  lemma ScopeGrowsByOne(v: State, n: State, used: set<string>, i: Intent)
    requires Mutates(v, n) && Coherent(v) && n.ledger[|n.ledger| - 1].id !in used && IdSet(i.ids) <= used
    ensures Active(v, i) ==> Active(n, i)
    ensures AllMissing(v.ledger, i.ids) ==> AllMissing(n.ledger, i.ids)
  {
    var m := n.ledger[|n.ledger| - 1];
    assert n.ledger == v.ledger + [m];
    assert m.id !in IdSet(i.ids);
    MutateKeepsCoherent(v, n);
    if Active(v, i) { ActiveGrows(v, n, i); }
    if AllMissing(v.ledger, i.ids) { MissingGrows(v.ledger, m, i.ids); }
  }

  lemma MutateSafe(w: World, e: Event)
    requires Safe(w) && Enabled(w, e) && e.Mutate?
    ensures Safe(Next(w, e))
  {
    var n := Next(w, e);
    var m := n.vault.ledger[|n.vault.ledger| - 1];
    assert n.vault.ledger == w.vault.ledger + [m];
    MutateKeepsCoherent(w.vault, n.vault);
    if w.intent.Some? { LinkedGrows(w, n, w.intent.value); }
    match w.pc {
      case Resumed(_, v, ids) =>
        if AllMissing(w.vault.ledger, ids) {
          MissingGrows(w.vault.ledger, m, ids);
        } else {
          ClosedGrows(w.vault.ledger, m, IdSet(ids));
        }
      case Scoped(i) => LinkedGrows(w, n, i);
      case PreparedSaved(i) => LinkedGrows(w, n, i);
      case PrerequisiteKnown(i) => LinkedGrows(w, n, i);
      case ReadySaved(i) => LinkedGrows(w, n, i);
      case Sent(i) => LinkedGrows(w, n, i);
      case Confirmed(i) => LinkedGrows(w, n, i);
      case _ =>
    }
  }

  lemma ScopeSafe(w: World, e: Event)
    requires Safe(w) && Enabled(w, e) && e.Scope?
    ensures Safe(Next(w, e))
  {
    var n := Next(w, e);
    ScopeIsActive(w.pc.loaded, w.vault, e.ids, w.pc, n.pc.intent);
  }

  lemma FinalizedVault(v: State, used: set<string>, i: Intent, projected: Snapshot)
    requires Coherent(v) && IdsOf(v.ledger) <= used && Active(v, i)
    requires UniqueSnapshot(projected) && View(projected) == Replay(View(BaseOf(v)), Chosen(v.ledger, IdSet(i.ids)))
    ensures var after := Finalized(v, IdSet(i.ids), projected);
      Coherent(after) && IdsOf(after.ledger) <= used && AllMissing(after.ledger, i.ids)
      && after.current == v.current && View(BaseOf(after)) == i.target.inventory
  {
    FinalizeKeepsCoherent(v, IdSet(i.ids), projected);
    FinalizedIsMissing(v, i.ids, projected);
    RemainingMembers(v.ledger, IdSet(i.ids));
  }

  /** A pending scope about to be finalized is active: it cannot be half finalized. */
  lemma PendingIsActive(w: World, i: Intent)
    requires Linked(w, i) && AllPending(w.vault.ledger, i.ids)
    ensures Active(w.vault, i)
  {
    assert PendingIndex(w.vault.ledger, i.ids[0]).Some?;
  }

  lemma FinalizeSafe(w: World, e: Event)
    requires Safe(w) && Enabled(w, e) && e.SaveFinalized?
    ensures Safe(Next(w, e))
  {
    PendingIsActive(w, w.pc.intent);
    FinalizedVault(w.vault, w.usedIds, w.pc.intent, e.projected);
  }

  lemma OpenSafe(w: World, e: Event)
    requires Safe(w) && Enabled(w, e)
    requires e.OpenPublish? || e.OpenStatus? || e.Stop?
    ensures Safe(Next(w, e))
  {
  }

  lemma ReconcileSafe(w: World, e: Event)
    requires Safe(w) && Enabled(w, e)
    requires e.ReconcilePrepared? || e.ReconcileFinalizationFailed?
    ensures Safe(Next(w, e))
  {
  }

  lemma ObserveTargetSafe(w: World, e: Event)
    requires Safe(w) && Enabled(w, e)
    requires e.ReconcileObserve? && w.remote == Some(w.intent.value.target)
    ensures Safe(Next(w, e))
  {
  }

  lemma ObservePrerequisiteSafe(w: World, e: Event)
    requires Safe(w) && Enabled(w, e)
    requires e.ReconcileObserve? && w.remote != Some(w.intent.value.target) && w.remote == w.intent.value.prerequisite
    ensures Safe(Next(w, e))
  {
  }

  lemma ObserveThirdSafe(w: World, e: Event)
    requires Safe(w) && Enabled(w, e)
    requires e.ReconcileObserve? && w.remote != Some(w.intent.value.target) && w.remote != w.intent.value.prerequisite
    ensures Safe(Next(w, e))
  {
  }

  lemma PrepareSafe(w: World, e: Event)
    requires Safe(w) && Enabled(w, e)
    requires e.SavePrepared? || e.Prepare? || e.PrepareFailed? || e.SaveReady?
    ensures Safe(Next(w, e))
  {
  }

  /** A target nobody was sent cannot be in the register yet. */
  lemma UnsentTargetIsNotRemote(w: World)
    requires Safe(w) && w.pc.ReadySaved?
    ensures w.remote != Some(w.pc.intent.target)
  {
  }

  lemma SendRequestSafe(w: World, e: Event)
    requires Safe(w) && Enabled(w, e)
    requires e.SendRequest?
    ensures Safe(Next(w, e))
  {
  }

  lemma SendRefusedSafe(w: World, e: Event)
    requires Safe(w) && Enabled(w, e)
    requires e.SendRefused?
    ensures Safe(Next(w, e))
  {
  }

  lemma SendConflictSafe(w: World, e: Event)
    requires Safe(w) && Enabled(w, e)
    requires e.SendConflict?
    ensures Safe(Next(w, e))
  {
  }

  lemma SendAmbiguousSafe(w: World, e: Event)
    requires Safe(w) && Enabled(w, e)
    requires e.SendAmbiguous?
    ensures Safe(Next(w, e))
  {
  }

  lemma SendConfirmedSafe(w: World, e: Event)
    requires Safe(w) && Enabled(w, e)
    requires e.SendConfirmed?
    ensures Safe(Next(w, e))
  {
  }

  lemma DeliverAppliedSafe(w: World, e: Event)
    requires Safe(w) && Enabled(w, e)
    requires e.Deliver? && w.remote == e.request.prerequisite
    ensures Safe(Next(w, e))
  {
  }

  lemma DeliverIgnoredSafe(w: World, e: Event)
    requires Safe(w) && Enabled(w, e)
    requires e.Deliver? && w.remote != e.request.prerequisite
    ensures Safe(Next(w, e))
  {
  }

  lemma ForeignWriteSafe(w: World, e: Event)
    requires Safe(w) && Enabled(w, e)
    requires e.ForeignWrite?
    ensures Safe(Next(w, e))
  {
  }

  lemma RefreshCacheSafe(w: World, e: Event)
    requires Safe(w) && Enabled(w, e)
    requires e.RefreshCache?
    ensures Safe(Next(w, e))
  {
  }

  lemma BeginFinalizeSafe(w: World, e: Event)
    requires Safe(w) && Enabled(w, e)
    requires e.BeginFinalize? || e.AlreadyFinalized?
    ensures Safe(Next(w, e))
  {
  }

  lemma FinalizeFailedSafe(w: World, e: Event)
    requires Safe(w) && Enabled(w, e)
    requires e.FinalizeFailed?
    ensures Safe(Next(w, e))
  {
  }

  lemma CompleteSafe(w: World, e: Event)
    requires Safe(w) && Enabled(w, e)
    requires e.Complete?
    ensures Safe(Next(w, e))
  {
  }

  lemma SessionStepSafe(w: World, e: Event)
    requires Safe(w) && Enabled(w, e)
    requires e.OpenPublish? || e.OpenStatus? || e.Stop? || e.ReconcilePrepared? || e.ReconcileFinalizationFailed? || e.ReconcileObserve?
    ensures Safe(Next(w, e))
  {
    if e.ReconcileObserve? {
      if w.remote == Some(w.intent.value.target) {
        ObserveTargetSafe(w, e);
      } else if w.remote == w.intent.value.prerequisite {
        ObservePrerequisiteSafe(w, e);
      } else {
        ObserveThirdSafe(w, e);
      }
    } else if e.ReconcilePrepared? || e.ReconcileFinalizationFailed? {
      ReconcileSafe(w, e);
    } else {
      OpenSafe(w, e);
    }
  }

  lemma SendStepSafe(w: World, e: Event)
    requires Safe(w) && Enabled(w, e)
    requires e.SendFoundTarget? || e.SendRequest? || e.SendRefused? || e.SendConflict? || e.SendAmbiguous? || e.SendConfirmed?
    ensures Safe(Next(w, e))
  {
    match e {
      case SendFoundTarget =>
        UnsentTargetIsNotRemote(w);
        assert false;
      case SendRequest => SendRequestSafe(w, e);
      case SendRefused(_) => SendRefusedSafe(w, e);
      case SendConflict(_, _) => SendConflictSafe(w, e);
      case SendAmbiguous(_) => SendAmbiguousSafe(w, e);
      case SendConfirmed => SendConfirmedSafe(w, e);
    }
  }

  lemma NetworkStepSafe(w: World, e: Event)
    requires Safe(w) && Enabled(w, e) && (e.Deliver? || e.ForeignWrite? || e.RefreshCache?)
    ensures Safe(Next(w, e))
  {
    if e.RefreshCache? {
      RefreshCacheSafe(w, e);
    } else if e.ForeignWrite? {
      ForeignWriteSafe(w, e);
    } else if w.remote == e.request.prerequisite {
      DeliverAppliedSafe(w, e);
    } else {
      DeliverIgnoredSafe(w, e);
    }
  }

  /** Every step, a crash included, keeps the invariant. */
  lemma StepSafe(w: World, e: Event)
    requires Safe(w) && Enabled(w, e)
    ensures Safe(Next(w, e))
  {
    if e.Mutate? {
      MutateSafe(w, e);
    } else if e.Scope? {
      ScopeSafe(w, e);
    } else if e.SavePrepared? || e.Prepare? || e.PrepareFailed? || e.SaveReady? {
      PrepareSafe(w, e);
    } else if e.SendFoundTarget? || e.SendRequest? || e.SendRefused? || e.SendConflict? || e.SendAmbiguous? || e.SendConfirmed? {
      SendStepSafe(w, e);
    } else if e.Deliver? || e.ForeignWrite? || e.RefreshCache? {
      NetworkStepSafe(w, e);
    } else if e.SaveFinalized? {
      FinalizeSafe(w, e);
    } else if e.FinalizeFailed? {
      FinalizeFailedSafe(w, e);
    } else if e.Complete? {
      CompleteSafe(w, e);
    } else if e.BeginFinalize? || e.AlreadyFinalized? {
      BeginFinalizeSafe(w, e);
    } else {
      SessionStepSafe(w, e);
    }
  }

  // ----- runs

  ghost predicate Step(w: World, n: World) {
    exists e :: Enabled(w, e) && n == Next(w, e)
  }

  ghost predicate Run(run: seq<World>) {
    run != [] && Init(run[0]) && forall k :: 0 <= k < |run| - 1 ==> Step(run[k], run[k + 1])
  }

  lemma {:induction false} RunSafe(run: seq<World>, k: nat)
    requires Run(run) && k < |run|
    ensures Safe(run[k])
  {
    if k > 0 {
      RunSafe(run, k - 1);
      assert Step(run[k - 1], run[k - 1 + 1]);
      var e :| Enabled(run[k - 1], e) && run[k] == Next(run[k - 1], e);
      StepSafe(run[k - 1], e);
    }
  }

  lemma StepHeld(w: World, e: Event)
    requires Enabled(w, e)
    ensures Next(w, e).held <= w.held + Some1(Next(w, e).remote)
  {
  }

  lemma RunHeld(run: seq<World>, k: nat)
    requires Run(run) && 0 < k < |run|
    ensures run[k].held <= run[k - 1].held + Some1(run[k].remote)
  {
    assert Step(run[k - 1], run[k - 1 + 1]);
    var e :| Enabled(run[k - 1], e) && run[k] == Next(run[k - 1], e);
    StepHeld(run[k - 1], e);
  }

  /** What the history calls held was in the register at some earlier moment. */
  lemma {:induction false} HeldBefore(run: seq<World>, k: nat, b: Blob) returns (j: nat)
    requires Run(run) && k < |run| && b in run[k].held
    ensures j <= k && run[j].remote == Some(b)
  {
    if run[k].remote == Some(b) || k == 0 {
      j := k;
    } else {
      RunHeld(run, k);
      j := HeldBefore(run, k - 1, b);
    }
  }

  lemma StepLedger(w: World, e: Event)
    requires Enabled(w, e)
    ensures !e.Mutate? && !e.SaveFinalized? ==> Next(w, e).vault == w.vault
    ensures e.Mutate? ==> Mutates(w.vault, Next(w, e).vault)
  {
  }

  /** A pending mutation leaves the ledger only when a recorded intent names it and
      the register was earlier seen to hold that intent's target. The new base is
      exactly the published inventory, the current inventory is untouched, and all
      other pending mutations stay, in order. */
  lemma PublishedBeforeDropped(run: seq<World>, k: nat, id: string) returns (i: Intent, j: nat)
    requires Run(run) && k + 1 < |run|
    requires id in IdsOf(run[k].vault.ledger) && id !in IdsOf(run[k + 1].vault.ledger)
    ensures run[k].intent.Some? && run[k].intent.value.ids == i.ids && run[k].intent.value.target == i.target
    ensures id in IdSet(i.ids)
    ensures j <= k && run[j].remote == Some(i.target) && i.target in run[k].seen
    ensures View(BaseOf(run[k + 1].vault)) == i.target.inventory
    ensures run[k + 1].vault.current == run[k].vault.current
    ensures run[k + 1].vault.ledger == Remaining(run[k].vault.ledger, IdSet(i.ids))
  {
    var w, n := run[k], run[k + 1];
    RunSafe(run, k);
    assert Step(run[k], run[k + 1]);
    var e :| Enabled(w, e) && n == Next(w, e);
    StepLedger(w, e);
    if e.Mutate? {
      GrownKeepsIds(w.vault, n.vault, id);
      assert false;
    }
    i := w.pc.intent;
    PendingIsActive(w, i);
    FinalizedVault(w.vault, w.usedIds, i, e.projected);
    if id !in IdSet(i.ids) {
      StaysPending(w.vault.ledger, IdSet(i.ids), id);
      assert false;
    }
    j := HeldBefore(run, k, i.target);
  }

  lemma GrownKeepsIds(v: State, w: State, id: string)
    requires Mutates(v, w) && id in IdsOf(v.ledger)
    ensures id in IdsOf(w.ledger)
  {
    var k :| 0 <= k < |v.ledger| && v.ledger[k].id == id;
    assert w.ledger[k] == v.ledger[k];
  }

  lemma StaysPending(ms: seq<PendingMutation>, ids: set<string>, id: string)
    requires id in IdsOf(ms) && id !in ids
    ensures id in IdsOf(Remaining(ms, ids))
  {
    var k :| 0 <= k < |ms| && ms[k].id == id;
    RemainingKeeps(ms, ids, k);
  }

  /** The local inventory changes only by an inventory operation, and replaying the
      ledger over its base gives it at every moment. */
  lemma LocalInventoryIsKept(run: seq<World>, k: nat)
    requires Run(run) && k + 1 < |run|
    ensures Coherent(run[k].vault)
    ensures run[k + 1].vault.current == run[k].vault.current || Mutates(run[k].vault, run[k + 1].vault)
  {
    RunSafe(run, k);
    assert Step(run[k], run[k + 1]);
    var e :| Enabled(run[k], e) && run[k + 1] == Next(run[k], e);
    StepLedger(run[k], e);
  }

  /** A prepared intent was never sent, and its target never was in the register. */
  lemma PreparedWasNeverSent(run: seq<World>, k: nat, j: nat)
    requires Run(run) && j <= k < |run|
    requires run[k].intent.Some? && run[k].intent.value.state == Prepared
    ensures run[k].intent.value.target !in run[k].sent
    ensures run[j].remote != Some(run[k].intent.value.target)
    ensures forall r :: r in run[k].wire ==> r.target != run[k].intent.value.target
  {
    RunSafe(run, k);
    HeldGrows(run, j, k);
    RunSafe(run, j);
  }

  lemma {:induction false} HeldGrows(run: seq<World>, j: nat, k: nat)
    requires Run(run) && j <= k < |run|
    ensures run[j].held <= run[k].held
    decreases k
  {
    if j < k {
      HeldGrows(run, j, k - 1);
      assert Step(run[k - 1], run[k - 1 + 1]);
      var e :| Enabled(run[k - 1], e) && run[k] == Next(run[k - 1], e);
      StepOnlyAddsHeld(run[k - 1], e);
    }
  }

  lemma StepOnlyAddsHeld(w: World, e: Event)
    requires Enabled(w, e)
    ensures w.held <= Next(w, e).held
  {
  }

  /** No target is sent twice, whatever crashes and retries happen. */
  lemma SentAtMostOnce(run: seq<World>, k: nat, a: nat, b: nat)
    requires Run(run) && k < |run| && a < b < |run[k].sent|
    ensures run[k].sent[a] != run[k].sent[b]
  {
    RunSafe(run, k);
  }

  /** The scope of an outstanding intent is pending as a whole or gone as a whole,
      so recovery never meets a partially finalized one; once gone, a repeated
      finalization changes nothing. */
  lemma NeverHalfFinalized(run: seq<World>, k: nat, e: Event)
    requires Run(run) && k < |run| && run[k].intent.Some?
    ensures AllPending(run[k].vault.ledger, run[k].intent.value.ids) <==> !AllMissing(run[k].vault.ledger, run[k].intent.value.ids)
    ensures AllMissing(run[k].vault.ledger, run[k].intent.value.ids) && Enabled(run[k], e) && !e.Mutate? ==>
      Next(run[k], e).vault == run[k].vault
  {
    RunSafe(run, k);
    var ids := run[k].intent.value.ids;
    assert AllPending(run[k].vault.ledger, ids) ==> PendingIndex(run[k].vault.ledger, ids[0]).Some?;
    if Enabled(run[k], e) { StepLedger(run[k], e); }
  }

  // ----- nothing unseen is overwritten

  /** The cache and the register agreed on it. */
  ghost predicate AgreedBefore(run: seq<World>, k: nat, prerequisite: Option<Blob>) {
    exists j :: 0 <= j <= k < |run| && run[j].cached == run[j].remote == prerequisite
  }

  predicate Preparing(pc: Pc) { pc.PrerequisiteKnown? || pc.ReadySaved? || pc.Sent? }

  lemma StepAgrees(w: World, e: Event)
    requires Enabled(w, e)
    ensures var n := Next(w, e);
      && (Preparing(n.pc) ==>
            || (Preparing(w.pc) && n.pc.intent.prerequisite == w.pc.intent.prerequisite)
            || w.cached == w.remote == n.pc.intent.prerequisite)
      && (forall r :: r in n.wire ==> r in w.wire || (Preparing(w.pc) && r.prerequisite == w.pc.intent.prerequisite))
  {
  }

  /** Whatever a request replaces was, at some moment before, both in the register and in the local cache: an
      update that was never fetched is not overwritten. */
  lemma {:induction false} NothingUnseenIsReplaced(run: seq<World>, k: nat)
    requires Run(run) && k < |run|
    ensures Preparing(run[k].pc) ==> AgreedBefore(run, k, run[k].pc.intent.prerequisite)
    ensures forall r :: r in run[k].wire ==> AgreedBefore(run, k, r.prerequisite)
  {
    if k > 0 {
      NothingUnseenIsReplaced(run, k - 1);
      assert Step(run[k - 1], run[k - 1 + 1]);
      var e :| Enabled(run[k - 1], e) && run[k] == Next(run[k - 1], e);
      StepAgrees(run[k - 1], e);
      forall p | AgreedBefore(run, k - 1, p) ensures AgreedBefore(run, k, p) {
      }
    }
  }

  /** The register changes only by a foreign write, or by a request that replaces what it expects. */
  lemma ReplacedAsExpected(w: World, e: Event)
    requires Enabled(w, e) && Next(w, e).remote != w.remote
    ensures e.ForeignWrite? || (e.Deliver? && e.request in w.wire && w.remote == e.request.prerequisite
                                && Next(w, e).remote == Some(e.request.target))
  {
  }

  // ----- a publication nobody disturbs

  ghost predicate Steps(run: seq<World>) {
    run != [] && forall k :: 0 <= k < |run| - 1 ==> Step(run[k], run[k + 1])
  }

  lemma TakeStep(run: seq<World>, e: Event) returns (longer: seq<World>)
    requires Steps(run) && Enabled(run[|run| - 1], e)
    ensures Steps(longer) && longer[0] == run[0] && longer[|longer| - 1] == Next(run[|run| - 1], e)
  {
    var w := run[|run| - 1];
    longer := run + [Next(w, e)];
    assert Step(w, Next(w, e));
    forall k | 0 <= k < |longer| - 1 ensures Step(longer[k], longer[k + 1]) {
      if k < |run| - 1 {
        assert Step(run[k], run[k + 1]);
      }
    }
  }

  /** The intent is on disk as prepared before the register is looked at. */
  lemma UndisturbedPrepare(w: World, only: string, ids: seq<string>, target: Blob) returns (run: seq<World>)
    requires w.pc.Idle? && w.intent.None?
    requires Selects(Opened(only, w.vault), ids) && ids != [] && target !in w.minted
    requires target.inventory == Replay(View(BaseOf(w.vault)), Chosen(w.vault.ledger, IdSet(ids)))
    ensures Steps(run) && run[0] == w
    ensures var i := Intent(Prepared, only != "", ids, w.cached, target, None);
      run[|run| - 1] == w.(pc := PreparedSaved(i), intent := Some(i), minted := w.minted + {target})
  {
    run := TakeStep([w], OpenPublish(only));
    run := TakeStep(run, Scope(ids, target));
    run := TakeStep(run, SavePrepared);
  }

  /** It is on disk as ready before the request is sent. */
  lemma UndisturbedSend(w: World, run: seq<World>) returns (longer: seq<World>)
    requires Steps(run) && w == run[|run| - 1] && w.pc.PreparedSaved? && w.cached == w.remote
    requires w.remote != Some(w.pc.intent.target)
    ensures Steps(longer) && longer[0] == run[0]
    ensures var i := w.pc.intent.(state := Ready, prerequisite := w.remote);
      longer[|longer| - 1] == w.(pc := Sent(i), intent := Some(i), wire := w.wire + {RequestOf(i)},
                                 sent := w.sent + [i.target], seen := w.seen + Some1(w.remote))
  {
    longer := TakeStep(run, Prepare);
    longer := TakeStep(longer, SaveReady);
    longer := TakeStep(longer, SendRequest);
    assert w.seen + Some1(w.remote) + Some1(w.remote) == w.seen + Some1(w.remote);
  }

  lemma UndisturbedConfirm(w: World, run: seq<World>) returns (longer: seq<World>)
    requires Steps(run) && w == run[|run| - 1] && w.pc.Sent? && RequestOf(w.pc.intent) in w.wire
    requires w.remote == w.pc.intent.prerequisite
    ensures Steps(longer) && longer[0] == run[0]
    ensures var n, i := longer[|longer| - 1], w.pc.intent;
      n.pc == Confirmed(i) && n.vault == w.vault && n.remote == Some(i.target)
  {
    longer := TakeStep(run, Deliver(RequestOf(w.pc.intent)));
    longer := TakeStep(longer, SendConfirmed);
  }

  /** The register, the base and the cache all hold the target in the end. */
  lemma UndisturbedFinish(w: World, run: seq<World>, projected: Snapshot) returns (longer: seq<World>)
    requires Steps(run) && w == run[|run| - 1] && w.pc.Confirmed? && w.pc.intent.ids != []
    requires AllPending(w.vault.ledger, w.pc.intent.ids) && UniqueSnapshot(projected)
    requires View(projected) == Replay(View(BaseOf(w.vault)), Chosen(w.vault.ledger, IdSet(w.pc.intent.ids)))
    ensures Steps(longer) && longer[0] == run[0]
    ensures var n, i := longer[|longer| - 1], w.pc.intent;
      && n.vault == Finalized(w.vault, IdSet(i.ids), projected)
      && n.remote == w.remote && n.cached == Some(i.target) && n.intent.None? && n.pc.Idle?
  {
    longer := TakeStep(run, BeginFinalize);
    longer := TakeStep(longer, SaveFinalized(projected));
    longer := TakeStep(longer, Complete(true));
  }

  /** An accepted publication that nobody disturbs runs to its end: the register, the new base and
      the refreshed cache agree, and the intent is gone. */
  lemma UndisturbedPublication(w: World, only: string, ids: seq<string>, target: Blob, projected: Snapshot)
    returns (run: seq<World>)
    requires Safe(w) && w.pc.Idle? && w.intent.None? && w.cached == w.remote
    requires Selects(Opened(only, w.vault), ids) && ids != [] && target !in w.minted
    requires target.inventory == Replay(View(BaseOf(w.vault)), Chosen(w.vault.ledger, IdSet(ids)))
    requires UniqueSnapshot(projected) && View(projected) == target.inventory
    ensures Steps(run) && run[0] == w
    ensures var n := run[|run| - 1];
      && n.vault == Finalized(w.vault, IdSet(ids), projected)
      && n.remote == n.cached == Some(target) && n.intent.None? && n.pc.Idle?
  {
    assert w.remote != Some(target);
    run := UndisturbedPrepare(w, only, ids, target);
    StepsSafe(run);
    run := UndisturbedSend(run[|run| - 1], run);
    run := UndisturbedConfirm(run[|run| - 1], run);
    run := UndisturbedFinish(run[|run| - 1], run, projected);
  }

  lemma {:induction false} StepsSafe(run: seq<World>)
    requires Steps(run) && Safe(run[0])
    ensures Safe(run[|run| - 1])
    decreases |run|
  {
    if |run| > 1 {
      var before := run[..|run| - 1];
      forall k | 0 <= k < |before| - 1 ensures Step(before[k], before[k + 1]) {
        assert Step(run[k], run[k + 1]);
      }
      StepsSafe(before);
      assert Step(run[|run| - 2], run[|run| - 2 + 1]);
      var e :| Enabled(run[|run| - 2], e) && run[|run| - 1] == Next(run[|run| - 2], e);
      StepSafe(run[|run| - 2], e);
    }
  }

  // ----- recovery

  /** From any state whose outstanding target is in the register, or whose finalization failed after it was
      confirmed, a recovery session finalizes it: the scope leaves the ledger if it has not yet, the cache is
      refreshed and the intent is gone. */
  lemma RecoveryFinalizes(w: World, projected: Snapshot) returns (run: seq<World>)
    requires Safe(w) && w.intent.Some? && UniqueSnapshot(projected)
    requires w.remote == Some(w.intent.value.target) || w.intent.value.state == FinalizationFailed
    requires View(projected) == Replay(View(BaseOf(w.vault)), Chosen(w.vault.ledger, IdSet(w.intent.value.ids)))
    ensures Steps(run) && run[0] == w
    ensures var n, i := run[|run| - 1], w.intent.value;
      && n.vault == (if AllPending(w.vault.ledger, i.ids) then Finalized(w.vault, IdSet(i.ids), projected) else w.vault)
      && AllMissing(n.vault.ledger, i.ids)
      && n.remote == w.remote && n.cached == Some(i.target) && n.intent.None? && n.pc.Idle?
  {
    run := RecoveryConfirms(w);
    var i := w.intent.value;
    if AllPending(w.vault.ledger, i.ids) {
      run := UndisturbedFinish(run[|run| - 1], run, projected);
      FinalizedIsMissing(w.vault, i.ids, projected);
    } else {
      run := FinishAgain(run[|run| - 1], run);
    }
  }

  lemma RecoveryConfirms(w: World) returns (run: seq<World>)
    requires Safe(w) && w.intent.Some?
    requires w.remote == Some(w.intent.value.target) || w.intent.value.state == FinalizationFailed
    ensures Steps(run) && run[0] == w
    ensures var n := run[|run| - 1];
      && n.pc == Confirmed(w.intent.value) && n.vault == w.vault && n.remote == w.remote && n.intent == w.intent
      && n.cached == w.cached
  {
    assert w.intent.value.state != Prepared;
    run := TakeStep([w], Stop);
    run := TakeStep(run, OpenStatus);
    if w.intent.value.state == FinalizationFailed {
      run := TakeStep(run, ReconcileFinalizationFailed);
    } else {
      run := TakeStep(run, ReconcileObserve(true));
    }
  }

  /** Wherever finalization fails after the target was confirmed, and whatever the register holds by then,
      recovery finalizes the scope if the failure was recorded. */
  lemma FailureRecovers(w: World, projected: Snapshot) returns (run: seq<World>)
    requires Safe(w) && (w.pc.Confirmed? || w.pc.Finalizing? || w.pc.Saved?) && UniqueSnapshot(projected)
    requires View(projected) == Replay(View(BaseOf(w.vault)), Chosen(w.vault.ledger, IdSet(w.pc.intent.ids)))
    ensures Enabled(w, FinalizeFailed(true)) && Steps(run) && run[0] == Next(w, FinalizeFailed(true))
    ensures var n, i := run[|run| - 1], w.pc.intent;
      && n.vault == (if AllPending(w.vault.ledger, i.ids) then Finalized(w.vault, IdSet(i.ids), projected) else w.vault)
      && AllMissing(n.vault.ledger, i.ids)
      && n.remote == w.remote && n.cached == Some(i.target) && n.intent.None? && n.pc.Idle?
  {
    FinalizeFailedSafe(w, FinalizeFailed(true));
    run := RecoveryFinalizes(Next(w, FinalizeFailed(true)), projected);
  }

  lemma FinishAgain(w: World, run: seq<World>) returns (longer: seq<World>)
    requires Steps(run) && w == run[|run| - 1] && w.pc.Confirmed? && AllMissing(w.vault.ledger, w.pc.intent.ids)
    ensures Steps(longer) && longer[0] == run[0]
    ensures var n, i := longer[|longer| - 1], w.pc.intent;
      n.vault == w.vault && n.remote == w.remote && n.cached == Some(i.target) && n.intent.None? && n.pc.Idle?
  {
    longer := TakeStep(run, BeginFinalize);
    longer := TakeStep(longer, AlreadyFinalized);
    longer := TakeStep(longer, Complete(true));
  }

  /** What recovery does with an intent whose request may have been sent: it goes on to finalize exactly if
      the register holds the target, returns the scope to pending exactly if it holds the prerequisite and
      not the target, and otherwise keeps the scope and records what it saw. */
  lemma ObservedExactly(w: World)
    requires Enabled(w, ReconcileObserve(true))
    ensures var n, i := Next(w, ReconcileObserve(true)), w.intent.value;
      && n.vault == w.vault && n.remote == w.remote && n.wire == w.wire && n.cached == w.cached
      && (n.pc == Confirmed(i) <==> w.remote == Some(i.target))
      && (n.intent.None? <==> w.remote == i.prerequisite && w.remote != Some(i.target))
      && (n.intent == Some(Intent(Divergent, i.scopeOnly, i.ids, i.prerequisite, i.target, w.remote)) && n.pc.Idle?
          <==> w.remote != i.prerequisite && w.remote != Some(i.target))
  {
    var n, i := Next(w, ReconcileObserve(true)), w.intent.value;
    assert n.intent.None? || n.intent == w.intent || n.intent.value.observed == w.remote;
  }

  /** The steps that clear an intent which need not have been published. */
  predicate Returns(w: World, e: Event) {
    && w.intent.Some?
    && if w.intent.value.state == Prepared then e == ReconcilePrepared(true)
       else e == ReconcileObserve(true) && w.intent.value.state != FinalizationFailed
            && w.remote == w.intent.value.prerequisite && w.remote != Some(w.intent.value.target)
  }

  /** A session continues with the scope it returned exactly if it was asked for that scope. */
  lemma ContinuesExactly(w: World, e: Event)
    requires InSession(w) && Returns(w, e)
    ensures Enabled(w, e) && Next(w, e).intent.None?
    ensures var n, i := Next(w, e), w.intent.value;
      && n.vault == w.vault && n.remote == w.remote && n.cached == w.cached && n.minted == w.minted && n.wire == w.wire
      && (n.pc.Resumed? <==> w.pc.Opened? && if i.scopeOnly then w.pc.only != "" && i.ids == [w.pc.only]
                                             else w.pc.only == "" || i.ids == [w.pc.only])
      && (n.pc.Resumed? ==> n.pc == Resumed(w.pc.only, w.pc.loaded, i.ids))
      && (!n.pc.Resumed? ==> n.pc.Idle?)
  {
  }

  /** From any state whose outstanding intent was not sent, or whose register holds the prerequisite and not
      the target, a recovery session clears the intent and touches nothing else: what was pending still is. */
  lemma RecoveryReturns(w: World, e: Event) returns (run: seq<World>)
    requires Safe(w) && Returns(w, e)
    ensures Steps(run) && run[0] == w
    ensures var n, i := run[|run| - 1], w.intent.value;
      && n.intent.None? && n.pc.Idle? && n.vault == w.vault
      && n.remote == w.remote && n.cached == w.cached && n.wire == w.wire
      && (i.target !in w.seen ==> AllPending(n.vault.ledger, i.ids))
  {
    run := TakeStep([w], Stop);
    run := TakeStep(run, OpenStatus);
    ContinuesExactly(run[|run| - 1], e);
    run := TakeStep(run, e);
  }

  /** An intent for a single mutation names it. */
  predicate Named(i: Intent) {
    i.scopeOnly ==> |i.ids| == 1 && i.ids[0] != ""
  }

  predicate ScopesNamed(w: World) {
    && (w.intent.Some? ==> Named(w.intent.value))
    && (IntentOf(w.pc).Some? ==> Named(IntentOf(w.pc).value))
  }

  /** A step writes no scope anew unless it selects one. */
  lemma ScopeIsCarried(w: World, e: Event)
    requires Enabled(w, e) && !e.Scope?
    ensures var n := Next(w, e);
      && (n.intent.Some? ==> SameScope(n.intent.value, w.intent) || SameScope(n.intent.value, IntentOf(w.pc)))
      && (IntentOf(n.pc).Some? ==> SameScope(IntentOf(n.pc).value, w.intent) || SameScope(IntentOf(n.pc).value, IntentOf(w.pc)))
  {
  }

  predicate SameScope(i: Intent, before: Option<Intent>) {
    before.Some? && before.value.scopeOnly == i.scopeOnly && before.value.ids == i.ids
  }

  lemma StepNamed(w: World, e: Event)
    requires ScopesNamed(w) && Enabled(w, e)
    ensures ScopesNamed(Next(w, e))
  {
    if e.Scope? {
      assert Named(Next(w, e).pc.intent);
    } else {
      ScopeIsCarried(w, e);
    }
  }

  lemma {:induction false} RunNamed(run: seq<World>, k: nat)
    requires Run(run) && k < |run|
    ensures ScopesNamed(run[k])
  {
    if k > 0 {
      RunNamed(run, k - 1);
      assert Step(run[k - 1], run[k - 1 + 1]);
      var e :| Enabled(run[k - 1], e) && run[k] == Next(run[k - 1], e);
      StepNamed(run[k - 1], e);
    }
  }

  /** What the user asks for to publish the scope of an intent again. */
  function RequestFor(i: Intent): string
    requires Named(i)
  {
    if i.scopeOnly then i.ids[0] else ""
  }

  /** A pending scope that was returned can be selected again. */
  lemma SelectedAgain(v: State, i: Intent)
    requires UniqueIds(v.ledger) && Named(i) && Active(v, i)
    ensures Selects(Resumed(RequestFor(i), v, i.ids), i.ids)
  {
    if i.scopeOnly {
      assert i.ids == [i.ids[0]];
      PendingIndexFinds(v.ledger, i.ids[0]);
      var k := PendingIndex(v.ledger, i.ids[0]).value;
      assert IdSet(i.ids) == {v.ledger[k].id};
      OnlyIsClosed(v.ledger, k);
    }
  }

  /** A session asked for the returned scope refreshes the cache and comes to the point where it selects. */
  lemma RecoveryResumes(w: World, e: Event) returns (run: seq<World>)
    requires Returns(w, e) && Named(w.intent.value)
    ensures Steps(run) && run[0] == w
    ensures var n, i := run[|run| - 1], w.intent.value;
      && n.pc == Resumed(RequestFor(i), w.vault, i.ids) && n.intent.None? && n.vault == w.vault
      && n.remote == n.cached == w.remote && n.minted == w.minted
  {
    var only := RequestFor(w.intent.value);
    assert w.intent.value.scopeOnly ==> w.intent.value.ids == [only];
    run := TakeStep([w], Stop);
    run := TakeStep(run, RefreshCache);
    run := TakeStep(run, OpenPublish(only));
    ContinuesExactly(run[|run| - 1], e);
    run := TakeStep(run, e);
  }

  /** The returned scope is published after all: one session clears the intent, selects the same scope with a
      new target, and runs to the end, where the register, the base and the cache agree. */
  lemma RecoveryRepublishes(w: World, e: Event, target: Blob, projected: Snapshot) returns (run: seq<World>)
    requires Safe(w) && ScopesNamed(w) && Returns(w, e) && AllPending(w.vault.ledger, w.intent.value.ids)
    requires target !in w.minted && UniqueSnapshot(projected) && View(projected) == target.inventory
    requires target.inventory == Replay(View(BaseOf(w.vault)), Chosen(w.vault.ledger, IdSet(w.intent.value.ids)))
    ensures Steps(run) && run[0] == w
    ensures var n, i := run[|run| - 1], w.intent.value;
      && n.vault == Finalized(w.vault, IdSet(i.ids), projected) && AllMissing(n.vault.ledger, i.ids)
      && n.remote == n.cached == Some(target) && n.intent.None? && n.pc.Idle?
  {
    var i := w.intent.value;
    PendingIsActive(w, i);
    SelectedAgain(w.vault, i);
    run := RecoveryResumes(w, e);
    run := TakeStep(run, Scope(i.ids, target));
    run := TakeStep(run, SavePrepared);
    assert w.remote != Some(target);
    run := UndisturbedSend(run[|run| - 1], run);
    run := UndisturbedConfirm(run[|run| - 1], run);
    run := UndisturbedFinish(run[|run| - 1], run, projected);
    FinalizedIsMissing(w.vault, i.ids, projected);
  }

  /** Publishing everything leaves nothing pending and no base apart from the current inventory. */
  lemma EverythingPublished(w: World, target: Blob) returns (run: seq<World>)
    requires Safe(w) && w.pc.Idle? && w.intent.None? && w.cached == w.remote && w.vault.ledger != []
    requires target !in w.minted && target.inventory == View(w.vault.current)
    ensures Steps(run) && run[0] == w
    ensures var n := run[|run| - 1];
      n.vault == State(w.vault.current, None, []) && n.remote == n.cached == Some(target) && n.intent.None? && n.pc.Idle?
  {
    var ids := LedgerIds(w.vault.ledger);
    EverythingSelected(w.vault, ids);
    run := UndisturbedPublication(w, "", ids, target, w.vault.current);
  }

  lemma EverythingSelected(v: State, ids: seq<string>)
    requires Coherent(v) && v.ledger != [] && ids == LedgerIds(v.ledger)
    ensures Selects(Opened("", v), ids) && ids != []
    ensures View(v.current) == Replay(View(BaseOf(v)), Chosen(v.ledger, IdSet(ids)))
    ensures Finalized(v, IdSet(ids), v.current) == State(v.current, None, [])
  {
    forall k | 0 <= k < |v.ledger| ensures v.ledger[k].id in IdSet(ids) {
      assert ids[k] == v.ledger[k].id;
    }
    EverythingChosen(v.ledger, IdSet(ids));
  }

  lemma {:induction false} EverythingChosen(ms: seq<PendingMutation>, ids: set<string>)
    requires forall k :: 0 <= k < |ms| ==> ms[k].id in ids
    ensures Chosen(ms, ids) == ms && Remaining(ms, ids) == []
  {
    if ms != [] {
      EverythingChosen(ms[..|ms| - 1], ids);
      assert ms == ms[..|ms| - 1] + [ms[|ms| - 1]];
    }
  }

  // ----- what an answer leaves behind

  /** The answers that end a session: to a request that was sent, or instead of sending it. */
  predicate Answers(w: World, e: Event) {
    || (w.pc.Sent? && (e.SendRefused? || e.SendAmbiguous? || e.SendConflict?))
    || (w.pc.ReadySaved? && (e.SendRefused? || (e.SendConflict? && e.read && w.remote != w.pc.intent.prerequisite)))
  }

  /** Each may come, and touches neither vault nor register. The intent is gone exactly if the answer is a
      rejection; a lost one is recorded as ambiguous, a conflict as divergent with what the register held or,
      where that cannot be read, what it was expected to hold; a record that cannot be written leaves the intent
      as it was sent. */
  lemma AnswerExactly(w: World, e: Event)
    requires Safe(w) && Answers(w, e)
    ensures Enabled(w, e)
    ensures var n := Next(w, e);
      && n.pc.Idle? && n.vault == w.vault && n.remote == w.remote && n.wire == w.wire && n.cached == w.cached
      && (n.intent.None? <==> e == SendRefused(true))
      && (n.intent.Some? ==>
          var i, j := w.intent.value, n.intent.value;
          && OnDisk(n, i) && j.prerequisite == i.prerequisite && j.scopeOnly == i.scopeOnly
          && (j.state == Ambiguous <==> e == SendAmbiguous(true))
          && (j.state == Divergent <==> e.SendConflict? && e.durable)
          && (j.state == Divergent ==> j.observed == if e.read then w.remote else i.prerequisite)
          && (j == i <==> !e.durable))
  {
    assert w.intent == Some(w.pc.intent) && w.intent.value.state == Ready;
  }

  /** A register that holds something else than the cache, or any other failure before the request, ends the
      session and clears the intent, unless it cannot be removed. */
  lemma PrepareFailsExactly(w: World, durable: bool)
    requires Safe(w) && w.pc.PreparedSaved?
    ensures Enabled(w, Prepare) <==> w.cached == w.remote
    ensures Enabled(w, PrepareFailed(durable))
    ensures var n := Next(w, PrepareFailed(durable));
      && n == w.(pc := Idle, intent := n.intent) && (n.intent.None? <==> durable) && (!durable ==> n.intent == w.intent)
  {
  }

  /** What every request on the wire expects was in the register before it. */
  ghost predicate WireOK(w: World) {
    forall r :: r in w.wire ==> Some1(r.prerequisite) <= w.held
  }

  lemma StepWire(w: World, e: Event)
    requires Safe(w) && WireOK(w) && Enabled(w, e)
    ensures WireOK(Next(w, e))
  {
    var n := Next(w, e);
    StepOnlyAddsHeld(w, e);
    forall r | r in n.wire ensures Some1(r.prerequisite) <= n.held {
      assert r in w.wire || (e.SendRequest? && r.prerequisite == w.remote);
    }
  }

  lemma NextWire(run: seq<World>, k: nat)
    requires Run(run) && 0 < k < |run| && Safe(run[k - 1]) && WireOK(run[k - 1])
    ensures WireOK(run[k])
  {
    assert Step(run[k - 1], run[k - 1 + 1]);
    var e :| Enabled(run[k - 1], e) && run[k] == Next(run[k - 1], e);
    StepWire(run[k - 1], e);
  }

  lemma {:induction false} RunWire(run: seq<World>, k: nat)
    requires Run(run) && k < |run|
    ensures WireOK(run[k])
  {
    if k > 0 {
      RunWire(run, k - 1);
      RunSafe(run, k - 1);
      NextWire(run, k);
    }
  }

  function IntentOf(pc: Pc): Option<Intent> {
    match pc
    case Idle => None
    case StatusOpened => None
    case Opened(_, _) => None
    case Resumed(_, _, _) => None
    case Scoped(i) => Some(i)
    case PreparedSaved(i) => Some(i)
    case PrerequisiteKnown(i) => Some(i)
    case ReadySaved(i) => Some(i)
    case Sent(i) => Some(i)
    case Confirmed(i) => Some(i)
    case Finalizing(i) => Some(i)
    case Saved(i) => Some(i)
  }

  /** A target that was made, never held, and that no intent stands for any more. */
  ghost predicate Abandoned(w: World, target: Blob) {
    && target in w.minted && target !in w.held && Some1(w.remote) <= w.held
    && (w.intent.Some? ==> w.intent.value.target != target)
    && (IntentOf(w.pc).Some? ==> IntentOf(w.pc).value.target != target)
  }

  predicate OnWire(w: World, target: Blob) {
    exists r :: r in w.wire && r.target == target
  }

  lemma StaysAbandoned(w: World, e: Event, target: Blob)
    requires Abandoned(w, target) && !OnWire(w, target) && Enabled(w, e)
    ensures Abandoned(Next(w, e), target) && !OnWire(Next(w, e), target)
  {
    StaysOffTheWire(w, e, target);
  }

  lemma StaysOffTheWire(w: World, e: Event, target: Blob)
    requires Abandoned(w, target) && !OnWire(w, target) && Enabled(w, e)
    ensures !OnWire(Next(w, e), target)
  {
    var n := Next(w, e);
    forall r | r in n.wire ensures r.target != target {
      assert r in w.wire || (e.SendRequest? && r.target == w.pc.intent.target);
    }
  }

  lemma {:induction false} NeverReached(run: seq<World>, target: Blob)
    requires Steps(run) && Abandoned(run[0], target) && !OnWire(run[0], target)
    ensures Abandoned(run[|run| - 1], target) && !OnWire(run[|run| - 1], target)
    decreases |run|
  {
    if |run| > 1 {
      var before := run[..|run| - 1];
      forall k | 0 <= k < |before| - 1 ensures Step(before[k], before[k + 1]) {
        assert Step(run[k], run[k + 1]);
      }
      NeverReached(before, target);
      assert Step(run[|run| - 2], run[|run| - 2 + 1]);
      var e :| Enabled(run[|run| - 2], e) && run[|run| - 1] == Next(run[|run| - 2], e);
      StaysAbandoned(run[|run| - 2], e, target);
    }
  }

  ghost predicate CanReach(w: World, target: Blob) {
    exists run: seq<World> :: Steps(run) && run[0] == w && run[|run| - 1].remote == Some(target)
  }

  /** An abandoned target can still come to the register exactly if its request is on the wire. */
  lemma AbandonedReaches(w: World, target: Blob)
    requires Safe(w) && WireOK(w) && Abandoned(w, target)
    ensures CanReach(w, target) <==> OnWire(w, target)
  {
    if OnWire(w, target) {
      var r :| r in w.wire && r.target == target;
      var run := TakeStep([w], ForeignWrite(r.prerequisite));
      run := TakeStep(run, Deliver(r));
      assert run[|run| - 1].remote == Some(target);
    }
    if CanReach(w, target) && !OnWire(w, target) {
      var run: seq<World> :| Steps(run) && run[0] == w && run[|run| - 1].remote == Some(target);
      NeverReached(run, target);
      assert false;
    }
  }

  /** The steps that clear an intent that was not published. */
  predicate Clears(e: Event) {
    e.ReconcilePrepared? || e.ReconcileObserve? || e.PrepareFailed? || e.SendRefused?
  }

  /** Before the request is sent. */
  predicate Unsending(w: World, e: Event) {
    e.ReconcilePrepared? || e.PrepareFailed? || w.pc.ReadySaved?
  }

  /** The state after an intent was cleared. */
  lemma Returned(w: World, e: Event)
    requires Safe(w) && WireOK(w) && w.intent.Some? && Enabled(w, e)
    requires Clears(e) && Next(w, e).intent.None?
    ensures var n, target := Next(w, e), w.intent.value.target;
      && n.wire == w.wire && n.held == w.held
      && (target !in w.held ==> Abandoned(n, target))
      && (Unsending(w, e) ==> target !in w.held && !OnWire(w, target))
  {
  }

  lemma HeldCanReturn(w: World, target: Blob)
    requires target in w.held
    ensures CanReach(w, target)
  {
    var run := TakeStep([w], ForeignWrite(Some(target)));
    assert run[|run| - 1].remote == Some(target);
  }

  /** When recovery, or an answer that is taken for a rejection, returns a scope to pending, its target can
      still come to the register exactly if it was there before or a request for it is on the wire; from an
      intent whose request was not sent it never can. */
  lemma ReturnedToPending(w: World, e: Event)
    requires Safe(w) && WireOK(w) && w.intent.Some? && Enabled(w, e)
    requires Clears(e) && Next(w, e).intent.None?
    ensures CanReach(Next(w, e), w.intent.value.target) <==> w.intent.value.target in w.held || OnWire(w, w.intent.value.target)
    ensures Unsending(w, e) ==> !CanReach(Next(w, e), w.intent.value.target)
  {
    var n, target := Next(w, e), w.intent.value.target;
    Returned(w, e);
    if target in w.held {
      HeldCanReturn(n, target);
    } else {
      StepSafe(w, e);
      StepWire(w, e);
      AbandonedReaches(n, target);
    }
  }
}
