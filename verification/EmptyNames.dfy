/** Where the policy relies on names not being empty: three rules that take the
    empty string for "no name", and exactly when they go wrong on a vault that
    holds a record so named.
 */
module EmptyNames {
  import opened Inventory
  import opened Ledger
  import opened VaultState
  import opened Vaults
  import opened HostPolicy
  import opened Transactions

  /** All that makes a step faithful but the name of a host. */
  ghost predicate FaithfulButForName(inv: Inv, m: PendingMutation) {
    && Closed(inv) && Closed(Apply(inv, m)) && WellFormed(m)
    && (IsHost(m) ==> EndpointOf(m.before) == Get(inv.conns, m.alias))
    && (!IsBulk(m) ==> forall n :: Touches(m, n) ==> n != "" && Lookup(m.keysBefore, n) == Get(inv.keys, n))
    && (!IsBulk(m) ==> Isolated(inv, m))
  }

  lemma OnlyTheNameIsMissing(inv: Inv, m: PendingMutation)
    ensures StepOK(inv, m) <==> FaithfulButForName(inv, m) && (IsHost(m) ==> m.alias != "")
  {
  }

  /** The record of an edit of a host's address. */
  function Edit(id: string, alias: string, before: Endpoint, host: string): PendingMutation {
    PendingMutation(id, alias, "", "updated", Some(Named(alias, before)), Some(Named(alias, before.(host := host))),
                    [], [], None, None)
  }

  lemma EditIsFaithful(inv: Inv, id: string, alias: string, host: string)
    requires Closed(inv) && alias in inv.conns
    ensures var m := Edit(id, alias, inv.conns[alias], host);
      && FaithfulButForName(inv, m) && (StepOK(inv, m) <==> alias != "")
      && Apply(inv, m) == Inv(inv.conns[alias := inv.conns[alias].(host := host)], inv.keys)
  {
    var m := Edit(id, alias, inv.conns[alias], host);
    OnlyTheNameIsMissing(inv, m);
    ApplyAt(inv, m);
    GetExtensional(Apply(inv, m).keys, inv.keys);
  }

  /** The alias rule skips the empty alias: on every vault that holds a host so named, two edits of it
      in a row are faithful records taken for independent, and publishing the later one alone changes
      the local inventory. */
  lemma EmptyAliasNotHoisted(inv: Inv)
    requires Closed(inv) && "" in inv.conns
    ensures var e := Edit("tx_1", "", inv.conns[""], "one");
      var s := Edit("tx_2", "", e.after.value.value, "two");
      && FaithfulButForName(inv, e) && FaithfulButForName(Apply(inv, e), s)
      && Accepted([e, s], 1)
      && Replay(Apply(inv, s), [e]) != Replay(inv, [e, s])
  {
    var e := Edit("tx_1", "", inv.conns[""], "one");
    var s := Edit("tx_2", "", e.after.value.value, "two");
    EditIsFaithful(inv, "tx_1", "", "one");
    EditIsFaithful(Apply(inv, e), "tx_2", "", "two");
    TwoEditsClash(inv, e, s);
  }

  /** Two edits of one host without a dependency whose results differ. */
  lemma TwoEditsClash(inv: Inv, e: PendingMutation, s: PendingMutation)
    requires WellFormed(e) && WellFormed(s) && IsHost(e) && IsHost(s) && !DependsOn(e, s)
    requires e.alias == s.alias && EndpointOf(e.after) != EndpointOf(s.after)
    ensures Replay(Apply(inv, s), [e]) != Replay(inv, [e, s])
  {
    CommuteExactly(inv, e, s);
    assert [e, s][1..] == [s];
    assert Replay(Apply(inv, e), [s]) == Apply(Apply(inv, e), s);
    assert Replay(inv, [e, s]) == Apply(Apply(inv, e), s);
    assert Replay(Apply(inv, s), [e]) == Apply(Apply(inv, s), e);
  }

  /** A saved key removal replays to what it did, unless the key it names is the
      empty one and a connection is named so too: that connection is lost. */
  lemma KeyRemovalReplays(before: Snapshot, name: string, m: PendingMutation)
    requires UniqueSnapshot(before) && name in Index(before.keys)
    requires m.bulkAfter.None? && m.keyName == name && m.alias == "" && m.before.None? && m.after.None?
    requires DeltaOf(Index(before.keys), Index(before.keys) - {name}, m.keysBefore, m.keysAfter)
    ensures Apply(View(before), m) == Inv(Index(before.connections), Index(before.keys) - {name})
       <==> (name != "" || "" !in Index(before.connections))
  {
    var conns := Index(before.connections);
    DiffPatchRoundTrip(Index(before.keys), Index(before.keys) - {name}, m.keysBefore, m.keysAfter);
    if name == "" {
      assert Apply(View(before), m).conns == conns - {""};
      assert "" in conns ==> conns - {""} != conns;
      assert "" !in conns ==> conns - {""} == conns;
    }
  }

  /** Pruning the key of a removed host leaves no dangling reference, unless the
      host with the empty alias, which the count passes over, uses the key. */
  lemma PruneKeepsClosed(inv: Inv, alias: string)
    requires Closed(inv) && alias in inv.conns && inv.conns[alias].keyName != ""
    requires !CountedUse(inv.conns - {alias}, inv.conns[alias].keyName)
    ensures Closed(Inv(inv.conns - {alias}, inv.keys - {inv.conns[alias].keyName}))
       <==> !(alias != "" && "" in inv.conns && inv.conns[""].keyName == inv.conns[alias].keyName)
  {
    var after := Inv(inv.conns - {alias}, inv.keys - {inv.conns[alias].keyName});
    forall c | c in after.conns && after.conns[c].keyName != "" && c != ""
      ensures after.conns[c].keyName in after.keys
    {
      assert c in inv.conns;
    }
    assert "" in after.conns <==> alias != "" && "" in inv.conns;
    if "" in after.conns && after.conns[""].keyName != "" {
      assert inv.conns[""].keyName in inv.keys;
    }
  }

  /** A removal, on any vault with unique names and closed references, leaves a dangling one exactly if it is
      to prune a saved key that no counted connection uses and the host with the empty alias does. */
  lemma RemovalKeepsClosed(before: Snapshot, after: Snapshot, change: HostChange, keyPruned: string,
                           conns: map<string, Endpoint>, k: string)
    requires Closed(View(before)) && HostRemovedAsCounted(before, after, change, keyPruned)
    requires conns == View(before).conns && k == conns[change.alias].keyName
    ensures Closed(View(after)) <==>
      !(&& change.pruneKey && k != "" && !CountedUse(conns - {change.alias}, k)
        && change.alias != "" && "" in conns && conns[""].keyName == k)
  {
    if keyPruned != "" {
      PruneKeepsClosed(View(before), change.alias);
    } else {
      assert k != "" ==> k in View(before).keys;
      forall c | c in View(after).conns && View(after).conns[c].keyName != ""
        ensures View(after).conns[c].keyName in View(after).keys
      {
        assert c in conns;
      }
    }
  }

  function KeyedHost(alias: string): Connection {
    Named(alias, Endpoint("host", 22, "root", "", "k", "", "", ""))
  }

  /** A vault on which it does not: the host with the empty alias shares the key that is pruned. */
  lemma PruneLeavesDangling(change: HostChange)
    requires change.action == HostRemove && change.alias == "a" && change.pruneKey
    ensures var before := Snapshot([KeyedHost(""), KeyedHost("a")], [Named("k", "material")]);
      var after := Snapshot([KeyedHost("")], []);
      && UniqueSnapshot(before) && Closed(View(before))
      && HostRemovedAsCounted(before, after, change, "k") && !Closed(View(after))
  {
    var before := Snapshot([KeyedHost(""), KeyedHost("a")], [Named("k", "material")]);
    var after := Snapshot([KeyedHost("")], []);
    AppendIndex([KeyedHost("")], KeyedHost("a"));
    AppendIndex([], KeyedHost(""));
    AppendIndex([], Named("k", "material"));
    assert [] + [KeyedHost("")] == [KeyedHost("")] && [] + [Named("k", "material")] == [Named("k", "material")];
    assert before.connections == [KeyedHost("")] + [KeyedHost("a")];
    assert View(after).conns == map["" := KeyedHost("").value] && View(after).keys == map[];
    assert View(before).conns - {"a"} == View(after).conns;
    assert View(before).keys - {"k"} == View(after).keys;
  }

  /** A vault on which the recorded removal takes a connection along: the key and the host are both
      named by the empty string, and no connection refers to that key. */
  lemma KeyRemovalTakesHost(m: PendingMutation)
    requires m.bulkAfter.None? && m.keyName == "" && m.alias == "" && m.before.None? && m.after.None?
    requires m.keysBefore == [Named("", "other")] && m.keysAfter == []
    ensures var before := Snapshot([KeyedHost("")], [Named("", "other"), Named("k", "material")]);
      && UniqueSnapshot(before) && Closed(View(before)) && !Referenced(before.connections, "")
      && Lookup(before.keys, "").Some? && Apply(View(before), m).conns == map[]
  {
    var before := Snapshot([KeyedHost("")], [Named("", "other"), Named("k", "material")]);
    AppendIndex([], KeyedHost(""));
    assert [] + [KeyedHost("")] == [KeyedHost("")];
    AppendIndex([Named("", "other")], Named("k", "material"));
    assert before.keys == [Named("", "other")] + [Named("k", "material")];
  }
}
