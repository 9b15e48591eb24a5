/** The reviewed inventory operations: each appends one recorded mutation to the
    ledger or leaves the stored vault as it was.
 */
module Transactions {
  import opened Inventory
  import opened Ordering
  import opened Ledger
  import opened Dependencies
  import opened VaultState
  import opened Vaults
  import opened Text
  import opened HostPolicy

  /** What became of one operation. Only `Applied` changes the stored vault. */
  datatype Outcome =
    | LedgerBroken | HostRejected(failure: Failure) | VerificationFailed | NothingChanged
    | KeyNotFound | KeyReferenced(aliases: set<string>) | ImportInvalid | ReportNotSaved
    | NoTransactionId | NotSaved | Applied(id: string)

  /** Exactly one mutation was appended: this record, with the difference of the saved keys. A ledger that was
      empty replays over the inventory as it was. */
  ghost predicate OneMore(v: State, w: State, record: PendingMutation) {
    && w.base == Some(BaseOf(v))
    && w.ledger != [] && w.ledger[..|w.ledger| - 1] == v.ledger
    && var m := w.ledger[|w.ledger| - 1];
    && m == record.(keysBefore := m.keysBefore, keysAfter := m.keysAfter)
    && DeltaOf(Index(v.current.keys), Index(w.current.keys), m.keysBefore, m.keysAfter)
  }

  /** The record of a host change. */
  function HostRecord(id: string, operation: string, alias: string, before: Snapshot, after: Snapshot): PendingMutation {
    PendingMutation(id, alias, "", operation, Recall(before.connections, alias), Recall(after.connections, alias),
                    [], [], None, None)
  }

  function Recall(s: seq<Connection>, alias: string): Option<Connection> {
    match Lookup(s, alias)
    case None => None
    case Some(e) => Some(Named(alias, e))
  }

  /** A key changes across the mutation exactly when its material differs. */
  lemma DeltaTouches(before: map<string, string>, after: map<string, string>, m: PendingMutation, n: string)
    requires DeltaOf(before, after, m.keysBefore, m.keysAfter)
    ensures Touches(m, n) <==> Get(before, n) != Get(after, n)
    ensures Touches(m, n) ==> Lookup(m.keysBefore, n) == Get(before, n)
  {
    SortedIsUnique(m.keysBefore);
    SortedIsUnique(m.keysAfter);
    IndexIsLookup(m.keysBefore, n);
    IndexIsLookup(m.keysAfter, n);
  }

  /** The mutation recorded for a host change says what the change did. */
  lemma HostMutationRecorded(before: Snapshot, after: Snapshot, alias: string, m: PendingMutation)
    requires Sound(before) && Sound(after) && OnlyAlias(View(before), View(after), alias) && alias != ""
    requires m.bulkAfter.None? && m.keyName == "" && m.alias == alias
    requires m.before == Recall(before.connections, alias) && m.after == Recall(after.connections, alias)
    requires DeltaOf(Index(before.keys), Index(after.keys), m.keysBefore, m.keysAfter)
    ensures StepOK(View(before), m) && Apply(View(before), m) == View(after)
  {
    var was, now := View(before), View(after);
    IndexIsLookup(before.connections, alias);
    IndexIsLookup(after.connections, alias);
    DiffPatchRoundTrip(was.keys, now.keys, m.keysBefore, m.keysAfter);
    forall c ensures Get(SetConnection(was.conns, alias, m.after), c) == Get(now.conns, c) {}
    GetExtensional(SetConnection(was.conns, alias, m.after), now.conns);
    SortedIsUnique(m.keysBefore);
    SortedIsUnique(m.keysAfter);
    forall n | Touches(m, n) ensures n != "" && Lookup(m.keysBefore, n) == Get(was.keys, n) {
      DeltaTouches(was.keys, now.keys, m, n);
    }
    forall c | c in was.conns && !(IsHost(m) && c == m.alias) ensures !Touches(m, was.conns[c].keyName) {
      DeltaTouches(was.keys, now.keys, m, was.conns[c].keyName);
    }
  }

  /** The change can be built on this vault. */
  ghost predicate Accepts(v: State, change: HostChange) {
    ValidLedger(v.base, v.ledger) && HostRefusal(v.current, change).None?
  }

  /** And its verification, when asked for, succeeded. */
  ghost predicate Proceeds(v: State, change: HostChange, verified: bool) {
    Accepts(v, change) && (change.verify ==> verified)
  }

  method ApplyHost(v: Vault, change: HostChange, verified: bool, newId: Option<string>, saved: bool)
    returns (outcome: Outcome, stored: Vault)
    ensures fresh(stored)
    ensures !outcome.Applied? ==> stored.Value() == v.Value()
    ensures outcome.LedgerBroken? <==> !ValidLedger(v.pendingBase, v.pendingMutations)
    ensures outcome.HostRejected? <==>
      ValidLedger(v.pendingBase, v.pendingMutations) && HostRefusal(v.Current(), change).Some?
    ensures outcome.HostRejected? ==> outcome.failure == HostRefusal(v.Current(), change).value
    ensures outcome.VerificationFailed? <==> Accepts(v.Value(), change) && change.verify && !verified
    ensures outcome.NothingChanged? <==> Proceeds(v.Value(), change, verified) && !ChangesHost(v.Current(), change)
    ensures outcome.NoTransactionId? <==>
      Proceeds(v.Value(), change, verified) && ChangesHost(v.Current(), change) && newId.None?
    ensures outcome.NotSaved? <==>
      Proceeds(v.Value(), change, verified) && ChangesHost(v.Current(), change) && newId.Some? && !saved
    ensures outcome.Applied? <==>
      Proceeds(v.Value(), change, verified) && ChangesHost(v.Current(), change) && newId.Some? && saved
    ensures outcome.Applied? ==> newId == Some(outcome.id)
    ensures outcome.Applied? && Coherent(v.Value()) && FreshId(v.Value(), outcome.id) ==>
      Mutates(v.Value(), stored.Value()) && OnlyAlias(View(v.Current()), View(stored.Current()), change.alias)
    ensures outcome.Applied? && Coherent(v.Value()) ==>
      exists built :: HostChanged(v.Current(), stored.Current(), change, built)
    ensures outcome.Applied? && change.action != HostRemove ==> HostStored(v.connections, stored.connections, change)
    ensures outcome.Applied? ==>
      OneMore(v.Value(), stored.Value(),
              HostRecord(outcome.id, Operation(v.Current(), change, true), change.alias, v.Current(), stored.Current()))
  {
    stored := v.Clone();
    var valid := ValidateLedger(v.pendingBase, v.pendingMutations);
    if !valid { return LedgerBroken, stored; }
    var built, after := BuildHostCandidate(v, change);
    if built.Rejected? { return HostRejected(built.failure), stored; }
    if change.verify && !verified { return VerificationFailed, stored; }
    if !built.changed { return NothingChanged, stored; }
    if newId.None? { return NoTransactionId, stored; }
    RecordHost(v, after, change, built, newId.value);
    assert Sound(v.Current()) ==> HostChanged(v.Current(), after.Current(), change, built);
    if !saved { return NotSaved, stored; }
    return Applied(newId.value), after;
  }

  /** Appends the record of the change to the candidate. */
  method RecordHost(v: Vault, after: Vault, change: HostChange, built: Built, id: string)
    requires after != v && built.Candidate? && built.changed
    requires after.pendingBase == v.pendingBase && after.pendingMutations == v.pendingMutations
    requires Sound(v.Current()) ==>
      && HostChanged(v.Current(), after.Current(), change, built)
      && Sound(after.Current()) && OnlyAlias(View(v.Current()), View(after.Current()), change.alias)
    modifies after`pendingBase, after`pendingMutations
    ensures after.Current() == old(after.Current())
    ensures OneMore(v.Value(), after.Value(), HostRecord(id, built.operation, change.alias, v.Current(), after.Current()))
    ensures Coherent(v.Value()) && FreshId(v.Value(), id) ==> Mutates(v.Value(), after.Value())
  {
    if after.pendingBase.None? {
      after.pendingBase := Some(v.Current());
    }
    var keysBefore, keysAfter := KeyDelta(v.keys, after.keys);
    var mutation := PendingMutation(id, change.alias, "", built.operation,
                                    Recall(v.connections, change.alias), Recall(after.connections, change.alias),
                                    keysBefore, keysAfter, None, None);
    after.pendingMutations := after.pendingMutations + [mutation];
    if Coherent(v.Value()) && FreshId(v.Value(), id) {
      HostStep(v.Value(), after.Value(), change, built, mutation);
    }
  }

  /** One more recorded host change is an inventory operation. */
  lemma HostStep(v: State, w: State, change: HostChange, built: Built, m: PendingMutation)
    requires Coherent(v) && FreshId(v, m.id) && HostChanged(v.current, w.current, change, built)
    requires Sound(w.current) && OnlyAlias(View(v.current), View(w.current), change.alias)
    requires w.base == Some(BaseOf(v)) && w.ledger == v.ledger + [m]
    requires m.bulkAfter.None? && m.keyName == "" && m.alias == change.alias
    requires m.before == Recall(v.current.connections, m.alias) && m.after == Recall(w.current.connections, m.alias)
    requires DeltaOf(Index(v.current.keys), Index(w.current.keys), m.keysBefore, m.keysAfter)
    ensures Mutates(v, w)
  {
    EditedAliasNamed(v.current, w.current, change, built);
    HostMutationRecorded(v.current, w.current, change.alias, m);
  }

  /** The change that was asked for, as a removal or an edit. */
  ghost predicate HostChanged(before: Snapshot, after: Snapshot, change: HostChange, built: Built) {
    built.Candidate? && built.changed
    && if change.action == HostRemove then HostRemoved(before, after, change, built.keyPruned)
       else HostEdited(before, after, change, built)
  }

  lemma EditedAliasNamed(before: Snapshot, after: Snapshot, change: HostChange, built: Built)
    requires Sound(before) && Sound(after) && HostChanged(before, after, change, built)
    ensures change.alias != ""
  {
  }

  // ----- saved keys

  /** What removing a saved key records. */
  lemma KeyRemovalRecorded(before: Snapshot, after: Snapshot, name: string, m: PendingMutation)
    requires Sound(before) && name in Index(before.keys) && UniqueSnapshot(after)
    requires forall c :: c in Index(before.connections) ==> Index(before.connections)[c].keyName != name
    requires after.connections == before.connections && Index(after.keys) == Index(before.keys) - {name}
    requires m.bulkAfter.None? && m.keyName == name && m.before.None? && m.after.None?
    requires DeltaOf(Index(before.keys), Index(after.keys), m.keysBefore, m.keysAfter)
    ensures Sound(after) && StepOK(View(before), m) && Apply(View(before), m) == View(after)
  {
    var was, now := View(before), View(after);
    DiffPatchRoundTrip(was.keys, now.keys, m.keysBefore, m.keysAfter);
    SortedIsUnique(m.keysBefore);
    SortedIsUnique(m.keysAfter);
    forall n | Touches(m, n) ensures n == name && Lookup(m.keysBefore, n) == Get(was.keys, n) {
      DeltaTouches(was.keys, now.keys, m, n);
    }
  }

  lemma KeyRemovalStep(v: State, name: string, m: PendingMutation)
    requires Coherent(v) && Lookup(v.current.keys, name).Some?
    requires forall k :: 0 <= k < |v.current.connections| ==> v.current.connections[k].value.keyName != name
    requires m.bulkAfter.None? && m.keyName == name && m.before.None? && m.after.None?
    requires DeltaOf(Index(v.current.keys), Index(RemoveFirst(v.current.keys, name)), m.keysBefore, m.keysAfter)
    ensures Sound(Snapshot(v.current.connections, RemoveFirst(v.current.keys, name)))
    ensures StepOK(View(v.current), m)
    ensures Apply(View(v.current), m) == View(Snapshot(v.current.connections, RemoveFirst(v.current.keys, name)))
  {
    var after := Snapshot(v.current.connections, RemoveFirst(v.current.keys, name));
    RemoveFirstIndex(v.current.keys, name);
    IndexIsLookup(v.current.keys, name);
    IndexMembers(v.current.connections);
    KeyRemovalRecorded(v.current, after, name, m);
  }

  /** The aliases whose connection uses the key. */
  method References(connections: seq<Connection>, name: string) returns (aliases: set<string>)
    ensures forall a :: a in aliases <==> exists k :: 0 <= k < |connections| && connections[k].name == a && connections[k].value.keyName == name
  {
    aliases := {};
    for i := 0 to |connections|
      invariant forall a :: a in aliases <==> exists k :: 0 <= k < i && connections[k].name == a && connections[k].value.keyName == name
    {
      if connections[i].value.keyName == name {
        aliases := aliases + {connections[i].name};
      }
    }
  }

  ghost predicate Referenced(connections: seq<Connection>, name: string) {
    exists k :: 0 <= k < |connections| && connections[k].value.keyName == name
  }

  ghost predicate Removable(v: State, name: string) {
    ValidLedger(v.base, v.ledger) && Lookup(v.current.keys, name).Some?
  }

  /** Appends the record of the removal to the candidate. */
  method RecordRemoval(v: Vault, after: Vault, name: string, id: string)
    requires after != v && after.pendingBase == v.pendingBase && after.pendingMutations == v.pendingMutations
    requires after.connections == v.connections && after.keys == RemoveFirst(v.keys, name) && Lookup(v.keys, name).Some?
    requires forall k :: 0 <= k < |v.connections| ==> v.connections[k].value.keyName != name
    modifies after`pendingBase, after`pendingMutations
    ensures OneMore(v.Value(), after.Value(), PendingMutation(id, "", name, "saved_key_removed", None, None, [], [], None, None))
    ensures Coherent(v.Value()) && FreshId(v.Value(), id) ==> Mutates(v.Value(), after.Value())
  {
    if after.pendingBase.None? {
      after.pendingBase := Some(v.Current());
    }
    var keysBefore, keysAfter := KeyDelta(v.keys, after.keys);
    var mutation := PendingMutation(id, "", name, "saved_key_removed", None, None, keysBefore, keysAfter, None, None);
    after.pendingMutations := after.pendingMutations + [mutation];
    assert after.pendingMutations == v.pendingMutations + [mutation];
    if Coherent(v.Value()) && FreshId(v.Value(), id) {
      KeyRemovalStep(v.Value(), name, mutation);
    }
  }

  method RemoveSavedKey(v: Vault, name: string, newId: Option<string>, saved: bool) returns (outcome: Outcome, stored: Vault)
    ensures fresh(stored)
    ensures !outcome.Applied? ==> stored.Value() == v.Value()
    ensures outcome.LedgerBroken? <==> !ValidLedger(v.pendingBase, v.pendingMutations)
    ensures ValidLedger(v.pendingBase, v.pendingMutations) ==> (outcome.KeyNotFound? <==> Lookup(v.keys, name).None?)
    ensures outcome.KeyReferenced? <==> Removable(v.Value(), name) && Referenced(v.connections, name)
    ensures outcome.KeyReferenced? ==>
      forall a :: a in outcome.aliases <==> exists k :: 0 <= k < |v.connections| && v.connections[k].name == a && v.connections[k].value.keyName == name
    ensures outcome.NoTransactionId? <==> Removable(v.Value(), name) && !Referenced(v.connections, name) && newId.None?
    ensures outcome.NotSaved? <==> Removable(v.Value(), name) && !Referenced(v.connections, name) && newId.Some? && !saved
    ensures outcome.Applied? <==> Removable(v.Value(), name) && !Referenced(v.connections, name) && newId.Some? && saved
    ensures outcome.Applied? ==> newId == Some(outcome.id)
    ensures outcome.Applied? ==> stored.connections == v.connections && stored.keys == RemoveFirst(v.keys, name)
    ensures outcome.Applied? && Coherent(v.Value()) && FreshId(v.Value(), outcome.id) ==> Mutates(v.Value(), stored.Value())
    ensures outcome.Applied? ==>
      OneMore(v.Value(), stored.Value(),
              PendingMutation(outcome.id, "", name, "saved_key_removed", None, None, [], [], None, None))
  {
    stored := v.Clone();
    var valid := ValidateLedger(v.pendingBase, v.pendingMutations);
    if !valid { return LedgerBroken, stored; }
    if Lookup(v.keys, name).None? { return KeyNotFound, stored; }
    var references := References(v.connections, name);
    if references != {} {
      ghost var a :| a in references;
      return KeyReferenced(references), stored;
    }
    var after := v.Clone();
    var removed := after.RemoveKeyByName(name);
    forall k | 0 <= k < |v.connections| ensures v.connections[k].value.keyName != name {
      assert v.connections[k].name !in references;
    }
    if newId.None? { return NoTransactionId, stored; }
    RecordRemoval(v, after, name, newId.value);
    if !saved { return NotSaved, stored; }
    return Applied(newId.value), after;
  }

  // ----- imports

  predicate Blank(s: string) { TrimSpace(s) == "" }

  predicate ValidImportedConnection(c: Endpoint) {
    && !Blank(c.host) && !Blank(c.user) && 1 <= c.port <= 65535
    && (c.password != "" || c.keyName != "")
  }

  lemma ImportedExactly(c: Endpoint)
    ensures ValidImportedConnection(c) <==>
      !AllSpace(c.host) && !AllSpace(c.user) && 0 < c.port < 65536 && !(c.password == "" == c.keyName)
  {
    TrimmedExactly(c.host);
    TrimmedExactly(c.user);
  }

  /** Whatever a host change stores may be exported and imported again. */
  lemma ManagedIsImportable(alias: string, c: Endpoint, keys: seq<SSHKey>)
    requires ValidateManagedConnection(alias, c, keys).None?
    ensures ValidImportedConnection(c)
    ensures c.keyName != "" ==> Saved(keys, c.keyName)
  {
    ManagedExactly(alias, c, keys);
    TrimmedExactly(c.host);
    TrimmedExactly(c.user);
  }

  /** An inventory that may be imported as a whole. */
  ghost predicate ValidImport(imported: Snapshot) {
    && (forall k :: 0 <= k < |imported.keys| ==> !Blank(imported.keys[k].name))
    && Unique(imported.keys)
    && (forall k :: 0 <= k < |imported.connections| ==>
          !Blank(imported.connections[k].name) && ValidImportedConnection(imported.connections[k].value))
    && Unique(imported.connections)
    && (forall k :: 0 <= k < |imported.connections| && imported.connections[k].value.keyName != "" ==>
          exists j :: 0 <= j < |imported.keys| && imported.keys[j].name == imported.connections[k].value.keyName)
  }

  method ValidateNames<V>(s: seq<Named<V>>) returns (ok: bool, names: set<string>)
    ensures ok <==> Unique(s) && forall k :: 0 <= k < |s| ==> !Blank(s[k].name)
    ensures ok ==> forall n :: n in names <==> exists k :: 0 <= k < |s| && s[k].name == n
  {
    names := {};
    for i := 0 to |s|
      invariant forall n :: n in names <==> exists k :: 0 <= k < i && s[k].name == n
      invariant forall k :: 0 <= k < i ==> !Blank(s[k].name)
      invariant forall j, k :: 0 <= j < k < i ==> s[j].name != s[k].name
    {
      if Blank(s[i].name) || s[i].name in names { return false, names; }
      names := names + {s[i].name};
    }
    return true, names;
  }

  method ValidateImportInventory(imported: Snapshot) returns (ok: bool)
    ensures ok <==> ValidImport(imported)
  {
    var keysOk, keys := ValidateNames(imported.keys);
    if !keysOk { return false; }
    var namesOk, _ := ValidateNames(imported.connections);
    if !namesOk { return false; }
    for i := 0 to |imported.connections|
      invariant forall k :: 0 <= k < i ==> ValidImportedConnection(imported.connections[k].value)
      invariant forall k :: 0 <= k < i && imported.connections[k].value.keyName != "" ==> imported.connections[k].value.keyName in keys
    {
      var c := imported.connections[i].value;
      if !ValidImportedConnection(c) { return false; }
      if c.keyName != "" && c.keyName !in keys { return false; }
    }
    return true;
  }

  /** The names of a slice in order of first appearance. */
  function DistinctNames<V>(s: seq<Named<V>>): seq<string> {
    if s == [] then []
    else
      var init := DistinctNames(s[..|s| - 1]);
      if s[|s| - 1].name in init then init else init + [s[|s| - 1].name]
  }

  lemma {:induction false} DistinctNamesMembers<V>(s: seq<Named<V>>)
    ensures forall n :: n in DistinctNames(s) <==> n in Index(s)
    ensures forall j, k :: 0 <= j < k < |DistinctNames(s)| ==> DistinctNames(s)[j] != DistinctNames(s)[k]
  {
    if s != [] { DistinctNamesMembers(s[..|s| - 1]); }
  }

  /** A name stands before another if it appears before the other one first does. */
  lemma {:induction false} DistinctNamesInOrder<V>(s: seq<Named<V>>, j: nat, k: nat) returns (i: nat)
    requires j < k < |DistinctNames(s)|
    ensures i < |s| && s[i].name == DistinctNames(s)[j]
    ensures forall h :: 0 <= h <= i ==> s[h].name != DistinctNames(s)[k]
  {
    var init := s[..|s| - 1];
    if k < |DistinctNames(init)| {
      i := DistinctNamesInOrder(init, j, k);
      assert forall h :: 0 <= h <= i ==> s[h] == init[h];
    } else {
      DistinctNamesMembers(init);
      assert DistinctNames(init)[j] in Index(init);
      i := IndexHolder(init, DistinctNames(init)[j]);
      assert s[i] == init[i];
      forall h | 0 <= h <= i ensures s[h].name != DistinctNames(s)[k] {
        assert s[h] == init[h];
        IndexHas(init, h);
      }
    }
  }

  lemma {:induction false} ConcatIndex<V>(local: seq<Named<V>>, remote: seq<Named<V>>)
    ensures Index(local + remote) == Index(local) + Index(remote)
    decreases |remote|
  {
    if remote == [] {
      assert local + remote == local;
    } else {
      assert (local + remote)[..|local + remote| - 1] == local + remote[..|remote| - 1];
      ConcatIndex(local, remote[..|remote| - 1]);
    }
  }

  /** Adds the records of a slice to the table and their new names to the order;
      with `report` set, names whose record is overwritten by a different one are
      collected. */
  method Overlay<V(==)>(first: seq<Named<V>>, second: seq<Named<V>>, table0: map<string, V>, order0: seq<string>, report: bool)
    returns (table: map<string, V>, order: seq<string>, conflicts: seq<string>)
    requires table0 == Index(first) && order0 == DistinctNames(first)
    ensures table == Index(first + second) && order == DistinctNames(first + second)
    ensures !report ==> conflicts == []
    ensures report && Unique(second) ==> Overwritten(Index(first), Index(second), conflicts)
  {
    table, order, conflicts := table0, order0, [];
    ghost var done, seen := first, [];
    for i := 0 to |second|
      invariant seen == second[..i] && done == first + seen
      invariant table == Index(done) && order == DistinctNames(done)
      invariant !report ==> conflicts == []
      invariant report && Unique(second) ==> Overwritten(Index(first), Index(seen), conflicts)
    {
      var record := second[i];
      ghost var before := conflicts;
      if record.name !in table {
        order := order + [record.name];
      } else if report && table[record.name] != record.value {
        conflicts := conflicts + [record.name];
      }
      table := table[record.name := record.value];
      OverlayStep(first, second, i, seen, before, conflicts, report);
      seen := second[..i + 1];
      assert first + seen == done + [record];
      AppendIndex(done, record);
      AppendDistinct(done, record);
      done := done + [record];
    }
    assert seen == second;
  }

  /** One more record of the second slice: what is reported so far. */
  lemma OverlayStep<V>(first: seq<Named<V>>, second: seq<Named<V>>, i: nat, seen: seq<Named<V>>,
                           before: seq<string>, after: seq<string>, report: bool)
    requires i < |second| && seen == second[..i]
    requires report && Unique(second) ==> Overwritten(Index(first), Index(seen), before)
    requires var table, record := Index(first + seen), second[i];
      after == if report && record.name in table && table[record.name] != record.value then before + [record.name] else before
    ensures report && Unique(second) ==> Overwritten(Index(first), Index(second[..i + 1]), after)
  {
    if report && Unique(second) {
      OverlayFresh(first, second, i);
      AppendIndex(seen, second[i]);
      assert second[..i + 1] == seen + [second[i]];
      OverwrittenStep(Index(first), Index(seen), before, second[i]);
    }
  }

  /** The names present on both sides with different records. */
  ghost predicate Overwritten<V>(local: map<string, V>, remote: map<string, V>, names: seq<string>) {
    forall n :: n in names <==> n in local && n in remote && local[n] != remote[n]
  }

  lemma OverwrittenStep<V>(local: map<string, V>, remote: map<string, V>, names: seq<string>, record: Named<V>)
    requires Overwritten(local, remote, names) && record.name !in remote
    ensures Overwritten(local, remote[record.name := record.value],
                        if record.name in local && local[record.name] != record.value then names + [record.name] else names)
  {
  }

  lemma AppendDistinct<V>(s: seq<Named<V>>, record: Named<V>)
    ensures DistinctNames(s + [record]) == if record.name in Index(s) then DistinctNames(s) else DistinctNames(s) + [record.name]
  {
    assert (s + [record])[..|s|] == s;
    DistinctNamesMembers(s);
  }

  lemma OverlayFresh<V>(first: seq<Named<V>>, second: seq<Named<V>>, i: nat)
    requires i < |second| && Unique(second)
    ensures second[i].name !in Index(second[..i])
    ensures Get(Index(first + second[..i]), second[i].name) == Get(Index(first), second[i].name)
  {
    ConcatIndex(first, second[..i]);
    IndexMembers(second[..i]);
  }

  /** Lists the records of a table in the given order. */
  method Assemble<V>(order: seq<string>, table: map<string, V>) returns (merged: seq<Named<V>>)
    requires forall n :: n in order <==> n in table
    requires forall j, k :: 0 <= j < k < |order| ==> order[j] != order[k]
    ensures Unique(merged) && Index(merged) == table
    ensures |merged| == |order| && forall k :: 0 <= k < |order| ==> merged[k].name == order[k]
  {
    merged := [];
    for i := 0 to |order|
      invariant |merged| == i
      invariant forall k :: 0 <= k < i ==> order[k] in table && merged[k] == Named(order[k], table[order[k]])
    {
      assert order[i] in order;
      merged := merged + [Named(order[i], table[order[i]])];
    }
    forall n | n in table ensures exists k :: 0 <= k < |merged| && merged[k].name == n {
      var k :| 0 <= k < |order| && order[k] == n;
      assert merged[k].name == n;
    }
    IndexDetermined(merged, table);
  }

  /** Overlays `remote` on `local`: the remote record wins, names keep the order
      of their first appearance, and the overwritten names are reported. */
  method MergeNamed<V(==)>(local: seq<Named<V>>, remote: seq<Named<V>>) returns (merged: seq<Named<V>>, conflicts: seq<string>)
    ensures Unique(merged) && Index(merged) == Index(local) + Index(remote)
    ensures |merged| == |DistinctNames(local + remote)|
    ensures forall k :: 0 <= k < |merged| ==> merged[k].name == DistinctNames(local + remote)[k]
    ensures Unique(remote) ==> Overwritten(Index(local), Index(remote), conflicts)
  {
    var table, order, _ := Overlay([], local, map[], [], false);
    assert [] + local == local;
    table, order, conflicts := Overlay(local, remote, table, order, true);
    DistinctNamesMembers(local + remote);
    ConcatIndex(local, remote);
    merged := Assemble(order, table);
  }

  /** The inventory an import leads to. */
  ghost predicate Imported(before: Inv, imported: Inv, after: Inv, replace: bool) {
    if replace then after == imported
    else after == Inv(before.conns + imported.conns, before.keys + imported.keys)
  }

  lemma ImportSound(imported: Snapshot)
    requires ValidImport(imported)
    ensures Sound(imported)
  {
    IndexMembers(imported.connections);
    IndexMembers(imported.keys);
    assert Blank("");
    var inv := View(imported);
    forall c | c in inv.conns && inv.conns[c].keyName != "" ensures inv.conns[c].keyName in inv.keys {
      var k :| 0 <= k < |imported.connections| && imported.connections[k] == Named(c, inv.conns[c]);
      assert imported.connections[k].value.keyName != "";
    }
  }

  /** A whole imported inventory is a recorded step. */
  lemma ImportRecorded(before: Snapshot, imported: Snapshot, after: Snapshot, replace: bool, m: PendingMutation)
    requires Sound(before) && ValidImport(imported) && UniqueSnapshot(after)
    requires Imported(View(before), View(imported), View(after), replace)
    requires m.bulkAfter == Some(after) && m.after.None?
    requires SortedByName(m.keysBefore) && SortedByName(m.keysAfter)
    ensures Sound(after) && StepOK(View(before), m) && Apply(View(before), m) == View(after)
  {
    ImportSound(imported);
    SortedIsUnique(m.keysBefore);
    SortedIsUnique(m.keysAfter);
  }

  ghost predicate Importable(v: State, imported: Snapshot) {
    ValidLedger(v.base, v.ledger) && ValidImport(imported)
  }

  method ApplyImport(v: Vault, imported: Snapshot, replace: bool, newId: Option<string>, reportSaved: bool, saved: bool)
    returns (outcome: Outcome, stored: Vault, conflicts: (seq<string>, seq<string>))
    ensures fresh(stored)
    ensures !outcome.Applied? ==> stored.Value() == v.Value()
    ensures outcome.LedgerBroken? <==> !ValidLedger(v.pendingBase, v.pendingMutations)
    ensures ValidLedger(v.pendingBase, v.pendingMutations) ==> (outcome.ImportInvalid? <==> !ValidImport(imported))
    ensures outcome.NoTransactionId? <==> Importable(v.Value(), imported) && newId.None?
    ensures outcome.ReportNotSaved? <==> Importable(v.Value(), imported) && newId.Some? && !replace && !reportSaved
    ensures outcome.NotSaved? <==> Importable(v.Value(), imported) && newId.Some? && (replace || reportSaved) && !saved
    ensures outcome.Applied? <==> Importable(v.Value(), imported) && newId.Some? && (replace || reportSaved) && saved
    ensures outcome.Applied? ==> newId == Some(outcome.id)
    ensures outcome.Applied? ==> Imported(View(v.Current()), View(imported), View(stored.Current()), replace)
    ensures outcome.Applied? && !replace ==> Overwritten(Index(v.connections), Index(imported.connections), conflicts.0)
                                             && Overwritten(Index(v.keys), Index(imported.keys), conflicts.1)
    ensures outcome.Applied? && Coherent(v.Value()) && FreshId(v.Value(), outcome.id) ==> Mutates(v.Value(), stored.Value())
    ensures outcome.Applied? ==>
      OneMore(v.Value(), stored.Value(),
              PendingMutation(outcome.id, "", "", if replace then "import_replaced" else "import_merged",
                              None, None, [], [], Some(v.Current()), Some(stored.Current())))
  {
    stored := v.Clone();
    conflicts := ([], []);
    var valid := ValidateLedger(v.pendingBase, v.pendingMutations);
    if !valid { return LedgerBroken, stored, conflicts; }
    var importable := ValidateImportInventory(imported);
    if !importable { return ImportInvalid, stored, conflicts; }
    var inventory := imported;
    if !replace {
      var connections, overwrittenAliases := MergeNamed(v.connections, imported.connections);
      var keys, overwrittenKeys := MergeNamed(v.keys, imported.keys);
      inventory := Snapshot(connections, keys);
      conflicts := (overwrittenAliases, overwrittenKeys);
    }
    if newId.None? { return NoTransactionId, stored, conflicts; }
    var keysBefore, keysAfter := KeyDelta(v.keys, inventory.keys);
    var mutation := PendingMutation(newId.value, "", "", if replace then "import_replaced" else "import_merged",
                                    None, None, keysBefore, keysAfter, Some(v.Current()), Some(inventory));
    var base := if v.pendingBase.None? then Some(v.Current()) else v.pendingBase;
    var after := new Vault(inventory.connections, inventory.keys, base, v.pendingMutations + [mutation]);
    if Coherent(v.Value()) && FreshId(v.Value(), newId.value) {
      ImportRecorded(v.Current(), imported, inventory, replace, mutation);
    }
    if !replace && !reportSaved { return ReportNotSaved, stored, conflicts; }
    if !saved { return NotSaved, stored, conflicts; }
    return Applied(newId.value), after, conflicts;
  }
}
