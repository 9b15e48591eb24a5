# The inventory ledger, its publication, and its companions

A Dafny model of `sshctl`: a vault of SSH connections and saved keys that is edited through recorded
mutations and published to a conditionally written remote register, and the output redaction, remote command
line, jump chain and keepalive code around it.

- **Ledger** (`Inventory`, `Ledger`, `Dependencies`, `Vault`, `VaultState`, `HostPolicy`, `Transactions`,
  `EmptyNames`). A vault holds the current inventory, a base snapshot and the pending mutations in order.
  Publishing one mutation out of the middle of the ledger is sound because the dependency rules reject every
  mutation that does not commute with an earlier one. `Ledger.CommuteExactly`, `Ledger.Hoist`,
  `Ledger.Partition` and `Ledger.PublishOne` prove that argument; `Vaults.Vault` is the object the program
  changes in place; `Transactions` shows that all three inventory operations keep what the argument needs.
- **Publication** (`Publication`, `VaultFile`). The durable intent, the session that holds the publication
  lock, a register written with If-Match or If-None-Match (sections 13.1.1 and 13.1.2 of RFC 9110), requests that
  stay on the wire for any time, other writers, and a crash before, between and after all of it.
- **Redaction** (`Kmp`, `KnownValueStream`, `LineWriter`, `StructuredValues`, `Brackets`, `KeyBlocks`, `UpperCase`,
  `Utf8`, `Spool`).
- **Command line and transport** (`ShellWords`, `RunArgs`, `JumpChain`, `Keepalive`).
- `Sequences`, `Bytes`, `Ordering` and `Text` hold what several of these share.

Inventories are compared as tables from names to connections and to keys. The assumptions are those of the
design: blobs are identified injectively, transaction ids are fresh, the initial vault has unique, non-empty
names and closed key references.

A program string is a byte string. The redaction follows that: `KnownValues` and `Spool` use `seq<byte>`, and in
`LineWriters`, `KeyBlocks`, `StructuredValues`, `Brackets`, `UpperCase` and `Utf8` a character of a `string` stands
for one byte. Elsewhere a `string` is one of Unicode characters: `Text` tests them for white space, and of the others
the rules look at ASCII characters and at equality and order alone.

Where code and intent part, the model follows the code:

- The alias rule and the key reference count take the empty alias for "no alias". On a vault that holds a host
  so named, hoisting and pruning go wrong (`EmptyNames`, with the exact conditions and the vaults).
- The window search of a diagnostic spool copies its first carries from behind the bytes it read. A marker that
  crosses the end of the first full window can be missed (`Spool.CrossingMarkerIsMissed`;
  `Spool.FoundUnlessItCrosses` has the exact condition).
- "No value survives in the output" holds exactly for values that neither begin nor end with an asterisk and hold
  no three in a row: a part of a mask can help to make up any other (`KnownValues.HiddenExactly`).
- "Private-key blocks are suppressed" has the exact condition `KeyBlocks.KeepsHidden`, proved in
  `KeyBlocks.KeyBlockIsHidden`. Structured values come first: a block is not entered while one is held, and a line
  of the block that begins one is held and written when it is completed or the input ends. And a line is sliced at
  places found in its upper-cased form: bytes that are no UTF-8 grow to three, and then bytes of the key are
  written, or the slice is out of range and the program ends; letters that shrink let the end of the block through.
  Inputs: `KeyBlocks.InnerLineIsWritten`, `KeyBlocks.BlockIsMissed`, `KeyBlocks.KeyIsWritten`,
  `KeyBlocks.SliceFails`, `KeyBlocks.KeyTailIsWritten`.
- The streaming writer bounds what it holds only behind a completed structured value: one that is begun and never
  completed is held without bound (`LineWriters.HeldExactly`).
- Every status but 200 and 412 is taken for a rejection, and the scope is pending again, though the request may
  still be applied (`Publication.ReturnedToPending` has the exact condition).

One hazard of an interface is recorded too, though no caller meets it: the stale-vault guard remembers one
loaded identity per process, so it protects only the vault loaded last (`VaultFile.LosingRun`;
`VaultFile.NothingLostExactly` has the exact condition).

## Model

| member | source | states |
|---|---|---|
| `Ledger.CommuteExactly` | internal/inventorytransaction/transaction.go:1700-1746 | two mutations between which no dependency edge exists commute on every inventory, exactly unless both edit the connection with the empty alias differently |
| `Ledger.EdgeExactly` | internal/inventorytransaction/transaction.go:1700-1746 | two recorded steps in a row, neither a whole-inventory import nor on one alias, have a dependency edge exactly if they could not have been made in the other order: the later one would not be a true record, would change a key in use or leave one missing, or the earlier one no longer would |
| `Ledger.SwapAdjacent` | internal/inventorytransaction/transaction.go:1700-1746 | swapping two adjacent mutations without an edge keeps the whole replay: every record still true of its place, every state closed, same final inventory |
| `Ledger.HoistClosed` | internal/inventorytransaction/transaction.go:1700-1746 | a mutation moved ahead of one it does not depend on leaves no connection naming a missing key |
| `Ledger.DelayIsolated` | internal/inventorytransaction/transaction.go:1700-1746 | the mutation that was overtaken still changes no key that another connection names |
| `Ledger.Hoist` | internal/inventorytransaction/transaction.go:1563-1586 | a mutation without an edge to any earlier one can be moved to the front of the ledger; replay and record truth are unchanged |
| `Ledger.Partition` | internal/inventorytransaction/transaction.go:1588-1624 | any selection closed under dependencies can be moved to the front as a whole |
| `Ledger.Rebase` | internal/inventorytransaction/transaction.go:1910-1930 | publishing such a selection: the new base plus the remaining mutations replays to the same local inventory, and the remaining ledger is still a faithful record |
| `Ledger.PublishOne` | internal/inventorytransaction/transaction.go:1563-1586 | an accepted single mutation projected on the base leaves nothing dangling, changes no other alias's connection or key material (non-bulk), and the rest of the ledger carries on from the new base |
| `Ledger.ReplayClosed` | internal/inventorytransaction/transaction.go:1850-1873 | every intermediate state of a valid ledger's replay is referentially closed |
| `Ledger.ApplyAt` | internal/inventorytransaction/transaction.go:1850-1873 | the effect of a host or key mutation, name by name, on connections and keys |
| `Dependencies.ChangedKeyNames` | internal/inventorytransaction/transaction.go:1748-1765 | the names whose material differs, sorted, without repeats, for every map order |
| `Ordering.LessExactly` | internal/inventorytransaction/transaction.go:1763 | one name is before another exactly if it is a proper beginning of it or has the smaller character where they first differ |
| `Dependencies.EdgeBetween` | internal/inventorytransaction/transaction.go:1700-1746 | an edge exactly when the later mutation depends on the earlier one, with the first reason the rules give and the key it is about |
| `Dependencies.ReasonExactly` | internal/inventorytransaction/transaction.go:1801-1820 | what each reason tells of the earlier mutation: which of its key lists has the key, and whether its connection used it before and after |
| `Dependencies.DirectDependencyEdges` | internal/inventorytransaction/transaction.go:1700-1746 | exactly the earlier mutations the selected one depends on, in ascending order, each with its reason |
| `Dependencies.Collect` | internal/inventorytransaction/transaction.go:1664-1698 | the recursive walk adds exactly what the target reaches through edges; it terminates because edges go strictly backwards |
| `Dependencies.DependenciesOf` | internal/inventorytransaction/transaction.go:1664-1698 | the Required list: one entry for each earlier mutation reachable through edges, ascending, with its own record and the first reason of an edge from it to something needed |
| `Dependencies.ValidateLedger` | internal/inventorytransaction/transaction.go:1626-1647 | accepts exactly the ledgers whose base is present if and only if they are non-empty and whose ids are present and distinct |
| `Dependencies.Preflight` | internal/inventorytransaction/transaction.go:1545-1561 | invalid ledger, not pending, clear and blocked each exactly when they arise; blocked comes with exactly the Required list |
| `Dependencies.PrerequisitesSuffice` | internal/inventorytransaction/transaction.go:1545-1561 | with the first mutations of the Required list gone from the ledger, Preflight passes for the next one, and after the last for the selected one |
| `Dependencies.ReachesTransitive` | internal/inventorytransaction/transaction.go:1664-1698 | prerequisites of prerequisites are prerequisites |
| `VaultState.MutateKeepsCoherent` | internal/inventorytransaction/transaction.go:238-292 | every inventory operation keeps the replay invariant: valid ledger, closed, base plus ledger replays to the current inventory |
| `VaultState.FinalizeKeepsCoherent` | internal/inventorytransaction/transaction.go:1910-1930 | finalizing a dependency-closed selection keeps that invariant, leaves the current inventory alone and makes the projection the base |
| `VaultState.RequiredInTurn` | internal/inventorytransaction/transaction.go:1545-1561 | publishing and finalizing the Required list one by one in its order: Preflight passes before each publication and then for the selected id, and the vault stays coherent with its current inventory throughout |
| `VaultState.ChosenAtPlaces` | internal/inventorytransaction/transaction.go:1588-1624 | mutations located at ascending places are the ones their ids choose |
| `Vaults.DiffPatchRoundTrip` | internal/inventorytransaction/transaction.go:1769-1799 | patching `before` with a recorded difference gives `after` |
| `Vaults.DeltaDetermined` | internal/inventorytransaction/transaction.go:1769-1799 | the recorded difference is the same for every map iteration order |
| `Vaults.KeyDelta` | internal/inventorytransaction/transaction.go:1769-1799 | the recorded difference of two key lists: sorted, exactly the entries that differ |
| `Vaults.Vault.RemoveKeyByName` | internal/inventorytransaction/transaction.go:1941-1949 | removes the first key of that name and says whether there was one |
| `Vaults.Vault.ApplyKeyDelta` | internal/inventorytransaction/transaction.go:1875-1901 | turns the key table into the patched table, sorted by name, whatever the map order |
| `Vaults.Vault.ApplyMutation` | internal/inventorytransaction/transaction.go:1850-1873 | carries one mutation out in place: its table is the specified one, names stay unique, slices sorted for host and key mutations |
| `Vaults.Vault.ReplayBase` | internal/inventorytransaction/transaction.go:1563-1586 | the base with the selected mutations applied in order, on a copy |
| `Vaults.Vault.Project` | internal/inventorytransaction/transaction.go:1563-1586 | clear exactly when the ledger is valid and Preflight accepts, otherwise with its answer and Required list; then the projection of the scope is the replay of the base, and with nothing pending the current inventory |
| `Vaults.Vault.ProjectTransactionIds` | internal/inventorytransaction/transaction.go:1588-1624 | succeeds exactly when all recorded ids are pending in ledger order or all are gone; then projects the base and those mutations |
| `Vaults.LocateIds` | internal/inventorytransaction/transaction.go:1588-1624 | counts the missing ids and finds the others' ascending places, stopping exactly when neither all nor none are pending in order |
| `Vaults.PendingExactly` | internal/inventorytransaction/transaction.go:1588-1612 | recorded ids are pending in order exactly if they are the ids of mutations at ascending places |
| `Vaults.Vault.MarkPublished` | internal/inventorytransaction/transaction.go:1910-1930 | drops exactly the selected mutations, keeps the others in order, and drops the base with the last of them |
| `Vaults.Vault.FinalizeLocally` | internal/inventorytransaction/transaction.go:1116-1158 | finalization of a recorded scope keeps the vault coherent and its inventory unchanged, rebases on the published inventory, and repeated after a crash it changes nothing |
| `HostPolicy.InstallHostKey` | internal/inventorytransaction/transaction.go:710-759 | refuses exactly an unusable file, an unsafe name, and a name taken by other material that is not this host's alone, each with its reason; otherwise the key table is the one with the material at that name |
| `HostPolicy.InstalledIsSafe` | internal/inventorytransaction/transaction.go:710-759 | an installed key changes one entry of the table at most, and an existing one only if no other connection uses it |
| `HostPolicy.KeyAddedExactly` | internal/inventorytransaction/transaction.go:710-759 | the key reported as added is the only new one |
| `HostPolicy.BuildHostCandidate` | internal/inventorytransaction/transaction.go:489-603 | rejects exactly the changes with a reason for refusal, with the first such reason; an accepted edit leaves a host whose every setting is the one given, trimmed, or the one before, in the place of the alias or behind the others; it says exactly when something changes and what the operation is called, and on a sound vault touches only the named alias and keys no other uses |
| `HostPolicy.AcceptedExactly` | internal/inventorytransaction/transaction.go:489-603 | a change is accepted exactly if the alias is there as the action demands, a new alias is well spelled, and the host that results setting by setting has a good address, user, port, group, jump host and usable credentials |
| `HostPolicy.TransferExactly` | internal/config/config.go:52-63 | the transfer modes in small or capital letters, trimmed, and nothing else; the default is stored as the empty string |
| `HostPolicy.RefusedExactly` | internal/inventorytransaction/transaction.go:489-603 | already there, not found, bad alias and key conflict are reported exactly when they arise |
| `HostPolicy.ManagedExactly` | internal/inventorytransaction/transaction.go:641-681 | a connection is accepted, or refused for the first of seven conditions on its characters, port, credentials and key that it fails; no scheme can be left once slashes are excluded |
| `HostPolicy.EditHost` | internal/inventorytransaction/transaction.go:525-603 | rejects exactly for the first of mode, credential and validation failures; otherwise the host asked for stands in its place or at the end, over the keys asked for |
| `HostPolicy.EditedIsSound` | internal/inventorytransaction/transaction.go:525-603 | on a sound vault such a candidate is the edited inventory, stays sound, and leaves every other alias alone |
| `HostPolicy.RemoveHost` | internal/inventorytransaction/transaction.go:493-508 | a removed host takes its key along exactly when asked to prune and no connection counts as using it; on a sound vault that is exactly when no other host uses it |
| `HostPolicy.EditKeepsSound` | internal/inventorytransaction/transaction.go:525-603 | an edit leaves every other alias's connection and key material as it was and nothing dangling |
| `HostPolicy.RemoveKeepsSound` | internal/inventorytransaction/transaction.go:493-508 | a removal does too |
| `HostPolicy.RetryChangesNothing` | internal/inventorytransaction/transaction.go:489-603 | asking again for what was just done changes nothing: update and upsert are accepted as unchanged, add is refused as already there |
| `HostPolicy.KeyReferenceCountExcept` | internal/inventorytransaction/transaction.go:781-789 | positive exactly when another host's connection names the key |
| `Text.TrimExactly` | internal/inventorytransaction/transaction.go:532-553 | what is taken off both ends of a text is white space, and what is left neither begins nor ends with any |
| `Transactions.ApplyHost` | internal/inventorytransaction/transaction.go:238-292 | exactly when each outcome arises; applied: one faithful mutation appended, with the operation, alias, connections and key difference of the change, and only the named alias touched; every other outcome leaves the stored vault as it was |
| `Transactions.HostMutationRecorded` | internal/inventorytransaction/transaction.go:262-285 | the recorded mutation replays to what the host change did |
| `Transactions.RemoveSavedKey` | internal/inventorytransaction/transaction.go:296-346 | exactly when each outcome arises: missing, referenced (by exactly these aliases), no id, not saved, applied; applied removes the first key of that name and appends exactly the record of that |
| `Transactions.KeyRemovalRecorded` | internal/inventorytransaction/transaction.go:318-338 | the recorded removal replays to the inventory without that key |
| `Transactions.ValidateImportInventory` | internal/inventorytransaction/transaction.go:438-479 | accepts exactly inventories with present, unique names, complete connections and closed key references |
| `Transactions.ManagedIsImportable` | internal/inventorytransaction/transaction.go:438-479 | every connection a host change accepts may be exported and imported again |
| `Transactions.MergeNamed` | internal/config/config.go:279-324 | the remote record wins, names keep the order of first appearance, and the reported conflicts are exactly the overwritten different records |
| `Transactions.DistinctNamesInOrder` | internal/config/config.go:279-324 | a name stands before another one in the merged order only if it appears before the other one first does |
| `Transactions.ApplyImport` | internal/inventorytransaction/transaction.go:350-412 | exactly when each outcome arises; applied: a valid inventory replaces or is merged, conflicts are reported exactly, and one bulk mutation that replays to it is recorded |
| `EmptyNames.EmptyAliasNotHoisted` | internal/inventorytransaction/transaction.go:1709-1713 | on every vault with a host of the empty alias: two recorded edits of it in a row, faithful but for that name, are taken for independent, and publishing the second alone changes the local inventory |
| `EmptyNames.KeyRemovalReplays` | internal/inventorytransaction/transaction.go:1850-1873 | a recorded key removal replays to what it did exactly unless the key's name is empty and a connection is named so too |
| `EmptyNames.KeyRemovalTakesHost` | internal/inventorytransaction/transaction.go:1850-1873 | a vault with closed references on which the recorded removal of an unreferenced key replays to the loss of a connection |
| `EmptyNames.PruneKeepsClosed` | internal/inventorytransaction/transaction.go:777-789 | pruning keeps references closed exactly unless the host with the empty alias, which the count passes over, uses the key |
| `EmptyNames.RemovalKeepsClosed` | internal/inventorytransaction/transaction.go:493-508 | a removal on a vault with closed references leaves them closed exactly unless it is asked to prune, no counted connection uses the key, and the host with the empty alias does |
| `EmptyNames.PruneLeavesDangling` | internal/inventorytransaction/transaction.go:777-779 | a vault on which it does prune such a key |
| `Publication.StepSafe` | internal/inventorytransaction/transaction.go:902-1158 | every step of publication, recovery, mutation, network and crash keeps the protocol invariant |
| `Publication.RunSafe` | internal/inventorytransaction/transaction.go:902-1158 | the invariant holds in every state of every run |
| `Publication.PublishedBeforeDropped` | internal/inventorytransaction/transaction.go:1116-1158 | a pending id leaves the ledger only if an intent names it and the register was earlier seen to hold that intent's target; base, current inventory and the other mutations are exactly as they must be |
| `Publication.HeldBefore` | internal/inventorytransaction/transaction.go:1082-1097 | whatever the protocol takes for published was in the register at an earlier moment |
| `Publication.PreparedWasNeverSent` | internal/inventorytransaction/transaction.go:1063-1068 | the target of a prepared intent was never sent, is on no wire, and never was in the register |
| `Publication.SentAtMostOnce` | internal/inventorytransaction/transaction.go:988-1001 | no target is ever sent twice, whatever crashes and retries happen |
| `Publication.NothingUnseenIsReplaced` | internal/synctransaction/transaction.go:775-803 | what a request replaces was in the register and in the local cache at an earlier moment, so an update that was never fetched is not overwritten |
| `Publication.NeverHalfFinalized` | internal/inventorytransaction/transaction.go:1116-1158 | the scope of an outstanding intent is pending as a whole or gone as a whole; once gone, finalizing again changes nothing |
| `Publication.LocalInventoryIsKept` | internal/inventorytransaction/transaction.go:902-1158 | the current inventory changes only by an inventory operation, and the ledger replays to it at every moment |
| `Publication.ActiveGrows` | internal/inventorytransaction/transaction.go:1588-1624 | a recorded scope keeps its projection while mutations are appended behind it |
| `Publication.ScopeIsActive` | internal/inventorytransaction/transaction.go:902-960 | what a publication selects from the vault it loaded is pending and dependency-closed in the stored vault, appended mutations included |
| `Publication.OnlySelectedExactly` | internal/inventorytransaction/transaction.go:1563-1586 | a publication of one mutation is accepted exactly if that mutation alone is a pending scope closed under dependencies |
| `Publication.UnsentTargetIsNotRemote` | internal/inventorytransaction/transaction.go:983-1001 | before the request is sent the register cannot hold the target |
| `Publication.UndisturbedPublication` | internal/inventorytransaction/transaction.go:902-1031 | an accepted publication that nobody disturbs runs to its end: register, new base and cache agree and the intent is gone |
| `Publication.EverythingPublished` | internal/inventorytransaction/transaction.go:902-1031 | publishing everything leaves nothing pending and no base apart from the current inventory |
| `Publication.RecoveryFinalizes` | internal/inventorytransaction/transaction.go:1055-1113 | from every safe state whose outstanding target is in the register, or whose finalization failed after it was confirmed, a recovery session finalizes it: the scope leaves the ledger if it has not yet, the cache is refreshed and the intent is gone |
| `Publication.FailureRecovers` | internal/inventorytransaction/transaction.go:1024-1029 | wherever finalization fails, and whatever the register holds by then, a recorded failure is finalized by recovery |
| `Publication.ObservedExactly` | internal/inventorytransaction/transaction.go:1082-1113 | recovery goes on to finalize exactly if the register holds the target, clears the intent exactly if it holds the prerequisite and not the target, and otherwise keeps the scope and records as divergent what it saw |
| `Publication.ContinuesExactly` | internal/inventorytransaction/transaction.go:921-939 | a session continues with the scope it returned exactly if it was asked for that scope, and otherwise ends |
| `Publication.RecoveryReturns` | internal/inventorytransaction/transaction.go:1063-1103 | from every safe state whose intent was not sent, or whose register holds the prerequisite and not the target, a recovery session clears the intent and touches nothing else; what was pending still is |
| `Publication.RecoveryRepublishes` | internal/inventorytransaction/transaction.go:902-1031 | from there one session publishes the returned scope with a new target and runs to its end: register, base and cache agree, the scope is gone from the ledger |
| `Publication.RunNamed` | internal/inventorytransaction/transaction.go:954-958 | in every run an intent for a single mutation names exactly one, so the scope can be asked for again |
| `Publication.AnswerExactly` | internal/inventorytransaction/transaction.go:1001-1016 | every answer that ends a session may come and touches neither vault nor register; the intent is gone exactly if it was a rejection, and otherwise recorded as ambiguous, divergent or unchanged |
| `Publication.ReturnedToPending` | internal/inventorytransaction/transaction.go:1001-1103 | when recovery, or an answer taken for a rejection, returns a scope to pending, its target can still come to the register exactly if it was there before or a request for it is on the wire; from an intent whose request was not sent it never can |
| `Publication.AbandonedReaches` | internal/inventorytransaction/transaction.go:1098-1103 | a target no intent stands for and the register never held can still come to the register exactly if its request is on the wire |
| `VaultFile.NoLostUpdate` | internal/config/config.go:244-255 | in every interleaving of mutators, finalizers and creators, each committed vault was computed from the content it replaced |
| `VaultFile.MutatorSave` | internal/inventorytransaction/transaction.go:217-233 | a mutator's save replaces the version it was computed from exactly when that is still the one its process loaded last |
| `VaultFile.UnrivalledMutatorCommits` | internal/inventorytransaction/transaction.go:217-233 | a mutator nobody overtakes commits, and its basis is the content it replaced |
| `VaultFile.CreatorExactly` | internal/config/config.go:368-389 | a creator nobody overtakes saves exactly if there is no file, and leaves an existing one alone |
| `VaultFile.StaleMutatorSavesNothing` | internal/inventorytransaction/transaction.go:217-233 | a mutator that holds an older version saves nothing and releases the lock |
| `VaultFile.CompareExactly` | internal/inventorytransaction/transaction.go:217-233 | a mutator gets to save exactly if the file is what its process loaded last, and otherwise releases the lock |
| `VaultFile.LoadingAgainLosesUpdates` | internal/config/config.go:185-200 | a hazard of the interface: the guard is one identity per process, so a process that loaded again while it held an older vault would overwrite the newer file |
| `VaultFile.LosingRun` | internal/config/config.go:185-200 | a run from the first state in which that happens |
| `VaultFile.NothingLostExactly` | internal/config/config.go:185-200 | in every run in which processes may load again, no update is lost exactly when every mutator saved the vault of its latest load |
| `Kmp.PrefixFunction` | internal/machinecontract/stream.go:150-163 | the table holds the longest proper border of every prefix, with at most as many fallbacks as bytes |
| `Kmp.SuffixPrefixLength` | internal/machinecontract/stream.go:165-179 | the longest proper prefix of the value that ends the text, with at most twice as many fallbacks as bytes |
| `Kmp.FallBack` | internal/machinecontract/stream.go:154-156 | falling back to the border of the match skips nothing that ends the text |
| `KnownValues.LongestAt` | internal/machinecontract/stream.go:117-132 | the length of the longest value that begins a text, zero when none does |
| `KnownValues.ReplaceExactly` | internal/machinecontract/stream.go:85-115 | the leftmost value, and of those that begin there the longest, becomes three asterisks; what stands before it is kept, and masking goes on behind it |
| `KnownValues.NextMatch` | internal/machinecontract/stream.go:117-132 | the earliest occurrence of any value from a position on, and the longest value there |
| `KnownValues.Withheld` | internal/machinecontract/stream.go:134-148 | exactly the longest suffix that is a proper prefix of some value |
| `KnownValues.PlainSettled` | internal/machinecontract/stream.go:85-115 | bytes at which no value begins or could still begin keep their form whatever follows |
| `KnownValues.MatchSettled` | internal/machinecontract/stream.go:85-115 | a longest match that cannot grow is masked whatever follows |
| `KnownValues.PrepareSensitiveValues` | internal/machinecontract/render.go:537-554 | the non-empty values, once each, longer ones first |
| `KnownValues.SameValuesSameReplace` | internal/machinecontract/render.go:537-554 | masking depends only on the set of non-empty values |
| `KnownValues.KnownValueStream.Release` | internal/machinecontract/stream.go:85-115 | what is written is settled for every continuation, and what stays pending is a proper prefix of a value |
| `KnownValues.KnownValueStream.Write` | internal/machinecontract/stream.go:55-73 | after every write the output is a beginning of the masked input, and fewer bytes than a value are held; a failed sink stops the stream |
| `KnownValues.KnownValueStream.Flush` | internal/machinecontract/stream.go:75-83 | the flushed output is the leftmost-longest masking of all input since the last flush; no such value is readable in that stretch |
| `KnownValues.KnownValueStream.NeverLeaks` | internal/machinecontract/stream.go:28-31 | at every moment, failed sink included, no value that a part of a mask cannot help to make up is readable in what was written since the last flush |
| `KnownValues.ValueIsHidden` | internal/machinecontract/stream.go:28-31 | a value that neither begins nor ends with an asterisk and holds no three in a row occurs nowhere in masked bytes |
| `KnownValues.HiddenExactly` | internal/machinecontract/stream.go:28-31 | a value is hidden among all values and on all inputs exactly if it neither begins nor ends with an asterisk and holds no three in a row |
| `KnownValues.MaskCanCompleteAValue` | internal/machinecontract/stream.go:28-31 | a value and an input on which it reappears where the mask completes it |
| `KnownValues.MaskStream` | internal/machinecontract/stream.go:55-115 | for every set of values and every way of cutting the input into writes, the output is the masking of the whole input |
| `Spool.SearchSpool` | internal/machinecontract/render.go:786-819 | what the window search answers, with the carry as it is computed, for every marker and window size |
| `Spool.FoundUnlessItCrosses` | internal/machinecontract/render.go:801-818 | a marker without a zero byte is found exactly when some occurrence lies within the first window or begins behind full windows as long as the carry can get |
| `Spool.MissedExactly` | internal/machinecontract/render.go:801-818 | a marker without a zero byte and no longer than a window and one byte is in the file and missed exactly if it occurs, and only across the end of the first window |
| `Spool.CrossingMarkerIsMissed` | internal/machinecontract/render.go:816-817 | a file that contains its marker and is reported not to |
| `LineWriters.LinesOfParts` | internal/machinecontract/render.go:859-871 | cutting the input anywhere and carrying the unfinished line over changes neither the lines nor the state they leave |
| `LineWriters.LinesAre` | internal/machinecontract/render.go:859-871 | terminated lines one behind the other are read as exactly those lines, whatever follows them |
| `LineWriters.LineEndExactly` | internal/machinecontract/render.go:859-871 | a line ends at a line feed and, while streaming, at a carriage return |
| `LineWriters.PlainLineExactly` | internal/machinecontract/render.go:931-944 | outside blocks and values a line that opens no block and begins no value is written as a whole |
| `LineWriters.RedactingWriter.Write` | internal/machinecontract/render.go:850-880 | the state is always that of the lines and over-long stretches released so far, in order, up to a slice out of range; they and what is pending make up the input, and a stretch is released exactly when an unterminated one exceeds the streaming limit |
| `LineWriters.RedactingWriter.Flush` | internal/machinecontract/render.go:882-895 | what is left is that of the released lines and stretches and the rest; without an over-long stretch that of the whole input |
| `LineWriters.RedactStream` | internal/machinecontract/render.go:850-959 | the output, and whether a slice is out of range, depend only on the concatenation of the writes, while streaming as long as no unterminated stretch exceeds the limit; in any case they are those of some cutting of the input into lines and over-long stretches |
| `StructuredValues.RedactStructuredValues` | internal/machinecontract/render.go:570-594 | replaces every stretch that is to be cut, and leaves the rest |
| `StructuredValues.CutAfterCut` | internal/machinecontract/render.go:570-594 | replacing cut by cut: everything outside the cuts is kept and each cut becomes one mark |
| `StructuredValues.CutsExactly` | internal/machinecontract/render.go:570-594 | there is exactly one way to cut the shortest complete value behind every match that does not begin in an earlier cut, and nothing else, and it is the one that is cut |
| `StructuredValues.UnchangedExactly` | internal/machinecontract/render.go:589-591 | the text keeps its form exactly when no match has a completed value behind it |
| `StructuredValues.HasIncompleteSensitiveStructure` | internal/machinecontract/render.go:961-974 | true exactly when a match ends the text or opens a value that no prefix completes |
| `StructuredValues.IncompleteExactly` | internal/machinecontract/render.go:961-974 | that is: a match ends the text, or a bracket stands behind it from which no stretch is complete |
| `KeyBlocks.BlockIsSilent` | internal/machinecontract/render.go:923-930 | inside a private key block quiet lines, and an unterminated rest, write nothing |
| `KeyBlocks.SilentExactly` | internal/machinecontract/render.go:917-930 | inside a private key block the lines before the end marker change nothing, at any moment, exactly if none of them begins a structured value |
| `KeyBlocks.EnteredExactly` | internal/machinecontract/render.go:897-945 | a line enters a block exactly when nothing is held, it begins no structured value, it has the begin marker and no end marker behind it, and the slice is not out of range |
| `KeyBlocks.BeginsExactly` | internal/machinecontract/render.go:931-935 | a line has a begin marker exactly if its beginning stands somewhere before its end |
| `KeyBlocks.KeyEndExactly` | internal/machinecontract/render.go:976-987 | and an end marker likewise |
| `KeyBlocks.MarkersInAnyCase` | internal/machinecontract/render.go:922 | markers in small letters open and close blocks like those in capitals |
| `KeyBlocks.OpeningExactly` | internal/machinecontract/render.go:931-944 | of the first line of a block as many bytes are written as its prefix has in upper case: none behind the marker exactly if these are no more than the prefix has, a failure exactly if more than the line has |
| `KeyBlocks.ClosingExactly` | internal/machinecontract/render.go:923-930 | of the last line as many bytes are left out as its head has in upper case: none of the head is written exactly if these are no fewer than it has, a failure exactly if more than the line has |
| `KeyBlocks.KeyBlockIsHidden` | internal/machinecontract/render.go:897-945 | for every private key block, outside another one: nothing from the begin marker to the end of the end marker is written, however other text is redacted, exactly if nothing is held when it begins, none of its lines begins a structured value, no end marker stands behind the begin marker, and upper case neither lengthens the prefix nor shortens the head of the last line nor makes that head longer than the line |
| `KeyBlocks.QuietBlockExactly` | internal/machinecontract/render.go:922-944 | a block no line of which touches a structured value: when it makes the program fail, and exactly what is written otherwise |
| `KeyBlocks.InnerLineIsWritten` | internal/machinecontract/render.go:898-920 | an inner line that begins a structured value is written when the next line completes it, and up to the value when the input ends there |
| `KeyBlocks.BlockIsMissed` | internal/machinecontract/render.go:898-916 | a first line that completes a held value is written, and every line of the key behind it |
| `KeyBlocks.InvalidBytesShift` | internal/machinecontract/render.go:931-944 | a first line that begins with any number of invalid bytes: three bytes are written for each, or the program fails |
| `KeyBlocks.KeyIsWritten` | internal/machinecontract/render.go:940 | twenty invalid bytes: the marker and thirteen bytes of the key are written |
| `KeyBlocks.SliceFails` | internal/machinecontract/render.go:940 | fifteen invalid bytes: the slice is out of range |
| `KeyBlocks.KeyTailIsWritten` | internal/machinecontract/render.go:924-927 | a last line whose head shrinks by any number of bytes: so many bytes at its end are written |
| `UpperCase.CutAtAscii` | internal/machinecontract/render.go:922-931 | a text and its upper-cased form can be cut alike before and behind every ASCII byte, which is what ties a place found in the one to a place in the other |
| `UpperCase.CaseIgnored` | internal/machinecontract/render.go:922 | small ASCII letters, wherever they stand in whatever bytes, have the same upper case as their capitals |
| `Utf8.EncodeRoundTrip` | internal/machinecontract/render.go:922 | every scalar value is read back from its UTF-8 bytes, whatever follows them |
| `Utf8.DecodeRoundTrip` | internal/machinecontract/render.go:922 | what is read is one byte that begins no rune, or a scalar value and exactly its own bytes |
| `LineWriters.UnfinishedValueIsHidden` | internal/machinecontract/render.go:898-919 | as long as no sensitive structured value is completed nothing is written, and at the end nothing behind the first prefix that announces one |
| `LineWriters.HeldExactly` | internal/machinecontract/render.go:898-920 | while streaming the held text exceeds the limit exactly when it is a longer text in which a value is begun and none is completed |
| `LineWriters.HeldLineExactly` | internal/machinecontract/render.go:898-920 | with a value held a line opens and closes no block: it is held until a value in it is completed, and then written unless another is begun, or over the limit up to the first match |
| `Brackets.StructuredValueEnd` | internal/machinecontract/render.go:596-630 | the shortest complete value from the start, exactly when there is one |
| `Brackets.NestsExactly` | internal/machinecontract/render.go:616-626 | brackets cancel pair by pair to nothing exactly when the stack of open ones ends empty |
| `Brackets.NestsLiterally` | internal/machinecontract/render.go:616-626 | a word nests exactly if it is empty, or "{" u "}" w or "[" u "]" w with u and w nesting |
| `Brackets.WrongKindNeverNests` | internal/machinecontract/render.go:616-626 | "[" u "}" w and "{" u "]" w never nest when u does |
| `Brackets.WrongBracketIsFinal` | internal/machinecontract/render.go:617-621 | a wrong closing bracket cannot be repaired by what follows |
| `Brackets.StringIsSkipped` | internal/machinecontract/render.go:602-615 | a whole quoted string, escapes included, adds no bracket |
| `ShellWords.IsEnvAssign` | internal/ssh/command.go:29-48 | true exactly for a valid name followed by an equals sign |
| `ShellWords.AssignmentExactly` | internal/ssh/command.go:29-48 | letters, digits and underscores before the first equals sign, beginning with no digit |
| `ShellWords.ScanQuoted` | internal/ssh/command.go:20-25 | the shell reads a quoted part as exactly its own characters, all protected, apostrophes included |
| `ShellWords.ArgvRoundTrip` | internal/ssh/command.go:95-103 | the shell's words for a joined argument list are that list, none an assignment |
| `ShellWords.JoinRemoteArgv` | internal/ssh/command.go:95-103 | every argument list reaches the remote program unchanged |
| `ShellWords.JoinExactly` | internal/ssh/command.go:74-76 | parts are joined with single spaces and nothing else |
| `ShellWords.CommandRoundTrip` | internal/ssh/command.go:72-92 | with the leading run left as assignments the words are still the parts, and exactly that run is assignments |
| `ShellWords.JoinRemoteCommand` | internal/ssh/command.go:61-93 | two or more parts come back unchanged; the unquoted assignments are exactly the longest leading run that leaves a command word |
| `RunArgs.RemoteArgvStart` | cmd/ssm/runargs.go:76-91 | the boundary scan computes the boundary of the option grammar |
| `RunArgs.BoundaryIgnoresRemote` | cmd/ssm/runargs.go:70-91 | the boundary is the end of a run of whole options before a remote token, whatever the remote words are |
| `RunArgs.OptionRead` | cmd/ssm/runargs.go:154-310 | an option that is not allowed where it stands rejects the whole list, one that is allowed extends what was read |
| `RunArgs.OptionsRoundTrip` | cmd/ssm/runargs.go:154-310 | the options read from a run of tokens, written out by name and value, are these tokens again |
| `RunArgs.AttachedIsRead` | cmd/ssm/runargs.go:196-296 | "name=value" is read as that name and that value for every name that allows it, equals signs in the value included |
| `RunArgs.AllowedExactly` | cmd/ssm/runargs.go:154-310 | options are allowed together exactly if each is allowed alone, by name, form and value, and no file for stdin is given before another one |
| `RunArgs.ParseRemoteRunArgs` | cmd/ssm/runargs.go:154-310 | accepts exactly lists whose options before the boundary are whole and allowed; then its options are those before the boundary, its parts are all that follows the longest marker there ("--", "--argv" or both), and it says which marker that is |
| `JumpChains.ResolveAlias` | internal/config/redirects.go:48-81 | the connection an alias stands for after at most sixteen soft links, or the alias itself; none for a circle |
| `JumpChains.OneRedirect` | internal/config/redirects.go:48-81 | a redirect leads to the connection it names, and back to its own alias if there is none |
| `JumpChains.StandsForOne` | internal/config/redirects.go:48-81 | an alias stands for at most one connection |
| `JumpChains.ResolveJumpChain` | internal/config/jumpchain.go:45-67 | succeeds exactly when a dial order exists and returns it; otherwise says where and why the links stop, and at which alias |
| `JumpChains.PlainDialOrder` | internal/config/jumpchain.go:45-67 | without redirects a dial order is at most six different hosts, the target last, each but the first naming the one before it, the first naming none |
| `JumpChains.DialOrderIsUnique` | internal/config/jumpchain.go:45-67 | a target has at most one dial order |
| `JumpChains.StuckIsFinal` | internal/config/jumpchain.go:51-61 | a chain that is too deep, circular or leads nowhere rules every dial order out |
| `Keepalives.RunKeepalive` | internal/ssh/keepalive.go:57-103 | closes the client exactly at the first tick that finds a failed probe or makes the limit of unanswered ones; at most one probe is out and its reply never blocks |
| `Keepalives.WaitsExactly` | internal/ssh/keepalive.go:70-100 | after a good reply, or from the start, the client is given up from the tick on that is one more than the limit, which is at least one |
| `Keepalives.FailureIsNoticed` | internal/ssh/keepalive.go:80-90 | a failed reply is noticed at the next tick |
| `Keepalives.SilentPeerIsClosed` | internal/ssh/keepalive.go:50-56 | a peer that falls silent is given up within one more tick than the limit |
| `Keepalives.AnsweringPeerIsKept` | internal/ssh/keepalive.go:80-90 | a peer that answers every probe before the next tick is never given up |

## Left out

- Network, SSH sessions, file system calls, file locks, encryption and JSON: a register, an atomically replaced file, a mutex and injective blobs stand for them. `internal/synctransaction` appears only through the outcomes its callers distinguish.
- Pulling and merging a remote vault, and adopting a foreign blob: any other write to the register is a foreign write.
- Receipts, views, timestamps, counts and error texts of the inventory operations; the source of new ids and of verification results: parameters of the operations.
- The regular expressions of the redaction and the upper case of code points outside ASCII: where the first match, what the second is, and how other text is redacted are parameters of the line writer.
- LineWriters.RedactingWriter.Write: is not called again behind a slice out of range, which ends the program, and does not model a failing sink, because the chunk independence it is about is promised for a sink that takes every byte; `KnownValues.KnownValueStream.Write` does model one.
- Spool.SearchSpool: does not model read errors, which end the search with an error of their own.
- RunArgs.ParseRemoteRunArgs: does not model the single local variables, which are functions of the options in the order they were read, nor the checks behind the option loop; the formats of values are a parameter.
- ShellWords.JoinRemoteCommand: does not model the grammar beyond words and quotation; the tokenizer gives no words for a line that needs it, and one unquoted part is passed on as it is.
- JumpChains.ResolveAlias: does not model a missing vault or an unreadable redirect file, which the program reads as no redirects.
- Keepalives.RunKeepalive: does not model the choice when a tick and the client's end are both waiting; every order of the two is a sequence of events of its own.
- The mutexes inside the stream, the writers and the spool: their methods run one at a time.
- Failure taxonomy, human rendering, help texts, transfers, tunnels, key parsing, provenance and release tooling: tables or input and output.
