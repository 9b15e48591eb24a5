/** The vault object whose slices the inventory operations rewrite in place. */
module Vaults {
  import opened Sequences
  import opened Inventory
  import opened Ordering
  import opened Ledger
  import opened Dependencies
  import opened VaultState

  // ----- slices

  function RemoveFirst<V>(s: seq<Named<V>>, name: string): seq<Named<V>> {
    if s == [] then []
    else if s[0].name == name then s[1..]
    else [s[0]] + RemoveFirst(s[1..], name)
  }

  lemma HasName<V>(s: seq<Named<V>>, name: string)
    ensures Lookup(s, name).Some? <==> exists i :: 0 <= i < |s| && s[i].name == name
  {
    LookupMembers(s, name);
  }

  lemma {:induction false} RemoveFirstLookup<V>(s: seq<Named<V>>, name: string)
    requires Unique(s)
    ensures Unique(RemoveFirst(s, name))
    ensures forall n :: Lookup(RemoveFirst(s, name), n) == if n == name then None else Lookup(s, n)
  {
    if s != [] {
      var tail := s[1..];
      HasName(tail, s[0].name);
      if s[0].name != name {
        var kept := RemoveFirst(tail, name);
        RemoveFirstLookup(tail, name);
        HasName(kept, s[0].name);
      }
    }
  }

  lemma RemoveFirstIndex<V>(s: seq<Named<V>>, name: string)
    requires Unique(s)
    ensures Unique(RemoveFirst(s, name))
    ensures Index(RemoveFirst(s, name)) == Index(s) - {name}
  {
    RemoveFirstLookup(s, name);
    forall n ensures Get(Index(RemoveFirst(s, name)), n) == Get(Index(s) - {name}, n) {
      IndexIsLookup(RemoveFirst(s, name), n);
      IndexIsLookup(s, n);
    }
    GetExtensional(Index(RemoveFirst(s, name)), Index(s) - {name});
  }

  lemma AppendIndex<V>(s: seq<Named<V>>, x: Named<V>)
    ensures Index(s + [x]) == Index(s)[x.name := x.value]
    ensures Unique(s) && x.name !in Index(s) ==> Unique(s + [x])
  {
    assert (s + [x])[..|s|] == s;
    IndexMembers(s);
  }

  function InsertSorted<V>(x: Named<V>, s: seq<Named<V>>): seq<Named<V>> {
    if s == [] then [x]
    else if Less(x.name, s[0].name) then [x] + s
    else [s[0]] + InsertSorted(x, s[1..])
  }

  /** Sorted by name; records of one name keep their order. */
  function StableSort<V>(s: seq<Named<V>>): seq<Named<V>> {
    if s == [] then [] else InsertSorted(s[|s| - 1], StableSort(s[..|s| - 1]))
  }

  lemma {:induction false} InsertSortedLookup<V>(x: Named<V>, s: seq<Named<V>>)
    requires SortedByName(s) && Lookup(s, x.name).None?
    ensures SortedByName(InsertSorted(x, s))
    ensures forall n :: Lookup(InsertSorted(x, s), n) == if n == x.name then Some(x.value) else Lookup(s, n)
  {
    if s == [] {
    } else if Less(x.name, s[0].name) {
      assert ([x] + s)[1..] == s;
      forall j | 0 <= j < |s| ensures Less(x.name, s[j].name) {
        if j > 0 { LessTransitive(x.name, s[0].name, s[j].name); }
      }
    } else {
      var tail := s[1..];
      LessTotal(x.name, s[0].name);
      InsertSortedLookup(x, tail);
      var rest := InsertSorted(x, tail);
      forall j | 0 <= j < |rest| ensures Less(s[0].name, rest[j].name) {
        HasName(rest, rest[j].name);
        if rest[j].name != x.name {
          HasName(tail, rest[j].name);
        }
      }
    }
  }

  lemma {:induction false} StableSortIndex<V>(s: seq<Named<V>>)
    requires Unique(s)
    ensures SortedByName(StableSort(s)) && Unique(StableSort(s))
    ensures Index(StableSort(s)) == Index(s)
  {
    if s != [] {
      var init, last := s[..|s| - 1], s[|s| - 1];
      var sorted := StableSort(init);
      StableSortIndex(init);
      IndexMembers(init);
      IndexIsLookup(sorted, last.name);
      InsertSortedLookup(last, sorted);
      SortedIsUnique(StableSort(s));
      forall n ensures Get(Index(StableSort(s)), n) == Get(Index(s), n) {
        IndexIsLookup(StableSort(s), n);
        IndexIsLookup(sorted, n);
      }
      GetExtensional(Index(StableSort(s)), Index(s));
    }
  }

  // ----- key differences

  /** `changedBefore` and `changedAfter` hold exactly the keys that differ. */
  ghost predicate DeltaOf(before: map<string, string>, after: map<string, string>,
                          changedBefore: seq<SSHKey>, changedAfter: seq<SSHKey>)
  {
    && SortedByName(changedBefore) && SortedByName(changedAfter)
    && (forall n :: Get(Index(changedBefore), n) == if Get(before, n) == Get(after, n) then None else Get(before, n))
    && (forall n :: Get(Index(changedAfter), n) == if Get(before, n) == Get(after, n) then None else Get(after, n))
  }

  /** Patching with a difference undoes taking it. */
  lemma DiffPatchRoundTrip(before: map<string, string>, after: map<string, string>,
                           changedBefore: seq<SSHKey>, changedAfter: seq<SSHKey>)
    requires DeltaOf(before, after, changedBefore, changedAfter)
    ensures Patch(before, Index(changedBefore), Index(changedAfter)) == after
  {
    forall n ensures Get(Patch(before, Index(changedBefore), Index(changedAfter)), n) == Get(after, n) {}
    GetExtensional(Patch(before, Index(changedBefore), Index(changedAfter)), after);
  }

  /** There is only one difference between two key tables, whatever order the
      maps are walked in. */
  lemma DeltaDetermined(before: map<string, string>, after: map<string, string>,
                        b1: seq<SSHKey>, a1: seq<SSHKey>, b2: seq<SSHKey>, a2: seq<SSHKey>)
    requires DeltaOf(before, after, b1, a1) && DeltaOf(before, after, b2, a2)
    ensures b1 == b2 && a1 == a2
  {
    forall n ensures Get(Index(b1), n) == Get(Index(b2), n) && Get(Index(a1), n) == Get(Index(a2), n) {}
    GetExtensional(Index(b1), Index(b2));
    GetExtensional(Index(a1), Index(a2));
    SortedDetermined(b1, b2);
    SortedDetermined(a1, a2);
  }

  method BuildIndex<V>(s: seq<Named<V>>) returns (table: map<string, V>)
    ensures table == Index(s)
  {
    table := map[];
    for i := 0 to |s|
      invariant table == Index(s[..i])
    {
      assert s[..i + 1][..i] == s[..i];
      table := table[s[i].name := s[i].value];
    }
    assert s[..|s|] == s;
  }

  method KeyDelta(before: seq<SSHKey>, after: seq<SSHKey>) returns (changedBefore: seq<SSHKey>, changedAfter: seq<SSHKey>)
    ensures DeltaOf(Index(before), Index(after), changedBefore, changedAfter)
  {
    var beforeByName := BuildIndex(before);
    var afterByName := BuildIndex(after);
    var names := beforeByName.Keys + afterByName.Keys;
    var changedNames := SortNames(set n | n in names && Get(beforeByName, n) != Get(afterByName, n));
    changedBefore := Picked(changedNames, beforeByName);
    changedAfter := Picked(changedNames, afterByName);
  }

  /** The records of the sorted names that the table has. */
  method Picked(names: seq<string>, table: map<string, string>) returns (picked: seq<SSHKey>)
    requires SortedNames(names)
    ensures SortedByName(picked)
    ensures forall n :: Get(Index(picked), n) == if n in names then Get(table, n) else None
  {
    picked := [];
    for i := 0 to |names|
      invariant SortedByName(picked)
      invariant forall k :: 0 <= k < |picked| ==> picked[k].name in names[..i]
      invariant forall n :: Get(Index(picked), n) == if n in names[..i] then Get(table, n) else None
    {
      assert names[..i + 1] == names[..i] + [names[i]];
      if names[i] in table {
        AppendIndex(picked, Named(names[i], table[names[i]]));
        picked := picked + [Named(names[i], table[names[i]])];
      }
    }
    assert names[..|names|] == names;
  }

  /** The slice once the connection at `idx`, or its absence, is replaced by the mutation. */
  function EditedAt(s: seq<Connection>, idx: int, after: Option<Connection>): seq<Connection>
    requires -1 <= idx < |s|
  {
    if after.None? then (if idx >= 0 then s[..idx] + s[idx + 1..] else s)
    else if idx >= 0 then s[idx := after.value]
    else s + [after.value]
  }

  lemma {:induction false} RemoveAt<V>(s: seq<Named<V>>, idx: nat)
    requires Unique(s) && idx < |s|
    ensures s[..idx] + s[idx + 1..] == RemoveFirst(s, s[idx].name)
  {
    if idx > 0 {
      RemoveAt(s[1..], idx - 1);
      assert s[..idx] + s[idx + 1..] == [s[0]] + (s[1..][..idx - 1] + s[1..][idx..]);
    }
  }

  lemma ReplaceAt<V>(s: seq<Named<V>>, idx: nat, x: Named<V>)
    requires Unique(s) && idx < |s| && x.name == s[idx].name
    ensures Unique(s[idx := x]) && Index(s[idx := x]) == Index(s)[x.name := x.value]
  {
    var edited := s[idx := x];
    IndexUnique(s);
    IndexMembers(s);
    forall n | n in Index(s) ensures exists i :: 0 <= i < |edited| && edited[i].name == n {
      var i :| 0 <= i < |s| && s[i].name == n;
      assert edited[i].name == n;
    }
    IndexDetermined(edited, Index(s)[x.name := x.value]);
  }

  lemma SetIsUpdate(table: map<string, Endpoint>, c: Connection)
    ensures SetConnection(table, c.name, Some(c)) == table[c.name := c.value]
  {
  }

  lemma EditedTable(s: seq<Connection>, idx: int, alias: string, after: Option<Connection>)
    requires Unique(s) && -1 <= idx < |s|
    requires if idx >= 0 then s[idx].name == alias else alias !in Index(s)
    requires after.Some? ==> after.value.name == alias
    ensures Unique(EditedAt(s, idx, after))
    ensures Index(EditedAt(s, idx, after)) == SetConnection(Index(s), alias, after)
  {
    if after.Some? {
      SetIsUpdate(Index(s), after.value);
      if idx >= 0 {
        ReplaceAt(s, idx, after.value);
      } else {
        AppendIndex(s, after.value);
      }
    } else if idx >= 0 {
      RemoveAt(s, idx);
      RemoveFirstIndex(s, alias);
    } else {
      assert Index(s) - {alias} == Index(s);
    }
  }

  // ----- recorded identifiers

  ghost predicate AllMissing(ms: seq<PendingMutation>, ids: seq<string>) {
    forall k :: 0 <= k < |ids| ==> PendingIndex(ms, ids[k]).None?
  }

  /** Every identifier is pending and they stand in ledger order. */
  ghost predicate AllPending(ms: seq<PendingMutation>, ids: seq<string>) {
    && (forall k :: 0 <= k < |ids| ==> PendingIndex(ms, ids[k]).Some?)
    && (forall j, k :: 0 <= j < k < |ids| ==> PendingIndex(ms, ids[j]).value < PendingIndex(ms, ids[k]).value)
  }

  /** Identifiers are pending in order exactly if they are those of mutations at ascending places. */
  lemma PendingExactly(ms: seq<PendingMutation>, ids: seq<string>)
    requires UniqueIds(ms)
    ensures AllPending(ms, ids) <==> exists places: seq<nat> :: StandAt(ms, ids, places)
  {
    if AllPending(ms, ids) {
      var places: seq<nat> := seq(|ids|, k requires 0 <= k < |ids| => PendingIndex(ms, ids[k]).value);
      forall k | 0 <= k < |ids| ensures places[k] < |ms| && ms[places[k]].id == ids[k] {
        PendingIndexFinds(ms, ids[k]);
      }
      assert StandAt(ms, ids, places);
    }
    if places: seq<nat> :| StandAt(ms, ids, places) {
      forall k | 0 <= k < |ids| ensures PendingIndex(ms, ids[k]) == Some(places[k]) {
        PendingIndexFinds(ms, ids[k]);
      }
    }
  }

  ghost predicate StandAt(ms: seq<PendingMutation>, ids: seq<string>, places: seq<nat>) {
    && Ascending(places) && |places| == |ids|
    && forall k :: 0 <= k < |ids| ==> places[k] < |ms| && ms[places[k]].id == ids[k]
  }

  /** Identifiers are missing exactly if no mutation bears one of them. */
  lemma MissingExactly(ms: seq<PendingMutation>, ids: seq<string>)
    ensures AllMissing(ms, ids) <==> IdsOf(ms) !! IdSet(ids)
  {
    forall k | 0 <= k < |ids| ensures PendingIndex(ms, ids[k]).None? <==> ids[k] !in IdsOf(ms) {
      PendingIndexFinds(ms, ids[k]);
    }
  }

  /** Finds the recorded identifiers, and stops where their order changed. */
  method LocateIds(ms: seq<PendingMutation>, ids: seq<string>)
    returns (ordered: bool, missing: nat, selected: seq<PendingMutation>, ghost places: seq<nat>)
    ensures !ordered ==> !AllMissing(ms, ids) && !AllPending(ms, ids)
    ensures ordered ==> (missing == |ids| <==> AllMissing(ms, ids))
    ensures ordered && |ids| > 0 ==> (missing == 0 <==> AllPending(ms, ids))
    ensures ordered && missing == 0 ==> Ascending(places) && |places| == |selected| == |ids|
    ensures ordered && missing == 0 ==> forall k :: 0 <= k < |ids| ==>
      PendingIndex(ms, ids[k]) == Some(places[k]) && places[k] < |ms| && selected[k] == ms[places[k]]
  {
    ordered, missing, selected, places := true, 0, [], [];
    var previousIndex: int := -1;
    ghost var seen: seq<string> := [];
    for i := 0 to |ids|
      invariant ordered && seen == ids[..i] && Located(ms, seen, missing, selected, places, previousIndex)
    {
      PendingIndexFinds(ms, ids[i]);
      var index := PendingIndex(ms, ids[i]);
      ghost var more := ids[..i + 1];
      TakeOneMore(ids, i);
      if index.None? {
        MissingOneMore(ms, seen, missing, selected, places, previousIndex, ids[i], more);
        missing, seen := missing + 1, more;
        continue;
      }
      if index.value <= previousIndex {
        OutOfOrder(ms, ids, i, missing, selected, places, previousIndex);
        ordered := false;
        return;
      }
      LocatedOneMore(ms, seen, missing, selected, places, previousIndex, ids[i], more, index.value);
      previousIndex := index.value;
      selected := selected + [ms[index.value]];
      places := places + [index.value];
      seen := more;
    }
    assert seen == ids;
    AllLocated(ms, ids, missing, selected, places, previousIndex);
  }

  lemma AllLocated(ms: seq<PendingMutation>, ids: seq<string>, missing: nat, selected: seq<PendingMutation>,
                   places: seq<nat>, previousIndex: int)
    requires Located(ms, ids, missing, selected, places, previousIndex)
    ensures missing == |ids| <==> AllMissing(ms, ids)
    ensures |ids| > 0 ==> (missing == 0 <==> AllPending(ms, ids))
    ensures missing == 0 ==> Ascending(places) && |places| == |selected| == |ids|
    ensures missing == 0 ==> forall k :: 0 <= k < |ids| ==>
      PendingIndex(ms, ids[k]) == Some(places[k]) && places[k] < |ms| && selected[k] == ms[places[k]]
  {
  }

  /** The state after looking up `ids`: how many were missing, and where the others are. */
  ghost predicate Located(ms: seq<PendingMutation>, ids: seq<string>, missing: nat, selected: seq<PendingMutation>,
                          places: seq<nat>, previousIndex: int) {
    && missing <= |ids| && |selected| == |places| == |ids| - missing && Ascending(places)
    && (missing == |ids| <==> AllMissing(ms, ids))
    && (missing == 0 <==> forall k :: 0 <= k < |ids| ==> PendingIndex(ms, ids[k]).Some?)
    && (if places == [] then previousIndex == -1
        else places[|places| - 1] == previousIndex && exists j :: 0 <= j < |ids| && PendingIndex(ms, ids[j]) == Some(previousIndex))
    && (forall k :: 0 <= k < |places| ==> places[k] < |ms| && selected[k] == ms[places[k]])
    && (missing == 0 ==> forall k :: 0 <= k < |ids| ==> PendingIndex(ms, ids[k]) == Some(places[k]))
  }

  lemma AscendingOneMore(places: seq<nat>, n: nat)
    requires Ascending(places) && (places != [] ==> places[|places| - 1] < n)
    ensures Ascending(places + [n])
  {
    var longer := places + [n];
    forall j, k | 0 <= j < k < |longer| ensures longer[j] < longer[k] {
      assert j < |places| - 1 ==> places[j] < places[|places| - 1];
    }
  }

  lemma MissingOneMore(ms: seq<PendingMutation>, ids: seq<string>, missing: nat, selected: seq<PendingMutation>,
                       places: seq<nat>, previousIndex: int, id: string, longer: seq<string>)
    requires Located(ms, ids, missing, selected, places, previousIndex)
    requires longer == ids + [id] && PendingIndex(ms, id).None?
    ensures Located(ms, longer, missing + 1, selected, places, previousIndex)
  {
    assert longer[|ids|] == id && forall k :: 0 <= k < |ids| ==> longer[k] == ids[k];
  }

  lemma LocatedOneMore(ms: seq<PendingMutation>, ids: seq<string>, missing: nat, selected: seq<PendingMutation>,
                       places: seq<nat>, previousIndex: int, id: string, longer: seq<string>, next: nat)
    requires Located(ms, ids, missing, selected, places, previousIndex)
    requires longer == ids + [id] && PendingIndex(ms, id) == Some(next) && previousIndex < next < |ms|
    ensures Located(ms, longer, missing, selected + [ms[next]], places + [next], next)
  {
    assert longer[|ids|] == id && forall k :: 0 <= k < |ids| ==> longer[k] == ids[k];
    AscendingOneMore(places, next);
  }

  /** An identifier at or before an earlier one's place: the recorded order is not the ledger's. */
  lemma OutOfOrder(ms: seq<PendingMutation>, ids: seq<string>, i: nat, missing: nat, selected: seq<PendingMutation>,
                   places: seq<nat>, previousIndex: int)
    requires i < |ids| && Located(ms, ids[..i], missing, selected, places, previousIndex)
    requires PendingIndex(ms, ids[i]).Some? && PendingIndex(ms, ids[i]).value <= previousIndex
    ensures !AllMissing(ms, ids) && !AllPending(ms, ids)
  {
    var j :| 0 <= j < i && PendingIndex(ms, ids[..i][j]) == Some(previousIndex);
    assert ids[..i][j] == ids[j];
  }

  // ----- the vault object

  class Vault {
    var connections: seq<Connection>
    var keys: seq<SSHKey>
    var pendingBase: Option<Snapshot>
    var pendingMutations: seq<PendingMutation>

    constructor (connections: seq<Connection>, keys: seq<SSHKey>, pendingBase: Option<Snapshot>, pendingMutations: seq<PendingMutation>)
      ensures this.connections == connections && this.keys == keys
      ensures this.pendingBase == pendingBase && this.pendingMutations == pendingMutations
    {
      this.connections := connections;
      this.keys := keys;
      this.pendingBase := pendingBase;
      this.pendingMutations := pendingMutations;
    }

    function Current(): Snapshot reads this { Snapshot(connections, keys) }

    function Value(): State reads this { State(Current(), pendingBase, pendingMutations) }

    method ExactConnectionIndex(alias: string) returns (idx: int)
      ensures -1 <= idx < |connections|
      ensures idx >= 0 ==> connections[idx].name == alias && Lookup(connections, alias) == Some(connections[idx].value)
      ensures forall k :: 0 <= k < (if idx >= 0 then idx else |connections|) ==> connections[k].name != alias
      ensures idx < 0 ==> Lookup(connections, alias) == None
    {
      idx := 0;
      while idx < |connections|
        invariant 0 <= idx <= |connections|
        invariant forall k :: 0 <= k < idx ==> connections[k].name != alias
        invariant Lookup(connections, alias) == Lookup(connections[idx..], alias)
      {
        if connections[idx].name == alias { return; }
        idx := idx + 1;
      }
      idx := -1;
    }

    method RemoveKeyByName(name: string) returns (removed: bool)
      modifies this`keys
      ensures keys == RemoveFirst(old(keys), name)
      ensures removed <==> Lookup(old(keys), name).Some?
    {
      for i := 0 to |keys|
        invariant keys == old(keys)
        invariant RemoveFirst(keys, name) == keys[..i] + RemoveFirst(keys[i..], name)
        invariant Lookup(keys, name) == Lookup(keys[i..], name)
      {
        if keys[i].name == name {
          keys := keys[..i] + keys[i + 1..];
          return true;
        }
      }
      return false;
    }

    /** Puts `next` in place of the key of that name, at the end of the slice. */
    method ReplaceKey(name: string, next: Option<string>)
      modifies this`keys
      ensures Unique(old(keys)) ==> Unique(keys)
      ensures Unique(old(keys)) ==> Index(keys) == if next.Some? then Index(old(keys))[name := next.value] else Index(old(keys)) - {name}
    {
      if Unique(keys) { RemoveFirstIndex(keys, name); }
      var _ := RemoveKeyByName(name);
      if next.Some? {
        AppendIndex(keys, Named(name, next.value));
        keys := keys + [Named(name, next.value)];
      }
    }

    /** Applies a recorded key difference, walking the two tables in any order. */
    method ApplyKeyDelta(before: seq<SSHKey>, after: seq<SSHKey>)
      modifies this`keys
      ensures Unique(old(keys)) ==> SortedByName(keys)
      ensures Unique(old(keys)) ==> Index(keys) == Patch(Index(old(keys)), Index(before), Index(after))
    {
      var beforeByName := BuildIndex(before);
      var afterByName := BuildIndex(after);
      ghost var table := Index(keys);
      ghost var done: set<string> := {};
      var left := beforeByName.Keys;
      while left != {}
        invariant left <= beforeByName.Keys && done == beforeByName.Keys - left
        invariant Unique(old(keys)) ==> Unique(keys) && PatchedOn(Index(keys), table, beforeByName, afterByName, done)
        decreases left
      {
        var name :| name in left;
        ghost var previous := Index(keys);
        if !(name in afterByName && afterByName[name] == beforeByName[name]) {
          ReplaceKey(name, Get(afterByName, name));
        }
        if Unique(old(keys)) { PatchOne(previous, Index(keys), table, beforeByName, afterByName, done, name); }
        left, done := left - {name}, done + {name};
      }
      left := afterByName.Keys;
      while left != {}
        invariant left <= afterByName.Keys && done == beforeByName.Keys + (afterByName.Keys - left)
        invariant Unique(old(keys)) ==> Unique(keys) && PatchedOn(Index(keys), table, beforeByName, afterByName, done)
        decreases left
      {
        var name :| name in left;
        ghost var previous := Index(keys);
        if name !in beforeByName {
          ReplaceKey(name, Some(afterByName[name]));
          if Unique(old(keys)) { PatchOne(previous, Index(keys), table, beforeByName, afterByName, done, name); }
        }
        left, done := left - {name}, done + {name};
      }
      if Unique(old(keys)) {
        PatchedAll(Index(keys), table, beforeByName, afterByName, done);
        StableSortIndex(keys);
      }
      keys := StableSort(keys);
    }

    /** Applies one mutation to the inventory. */
    method ApplyMutation(m: PendingMutation)
      modifies this`connections, this`keys
      ensures WellFormed(m) && UniqueSnapshot(old(Current())) ==> UniqueSnapshot(Current())
      ensures WellFormed(m) && UniqueSnapshot(old(Current())) ==> View(Current()) == Apply(View(old(Current())), m)
      ensures WellFormed(m) && UniqueSnapshot(old(Current())) && !IsBulk(m) ==> SortedByName(connections) && SortedByName(keys)
    {
      if m.bulkAfter.Some? {
        connections, keys := m.bulkAfter.value.connections, m.bulkAfter.value.keys;
        return;
      }
      if m.keyName == "" {
        var idx := ExactConnectionIndex(m.alias);
        if WellFormed(m) && UniqueSnapshot(Current()) {
          IndexIsLookup(connections, m.alias);
          EditedTable(connections, idx, m.alias, m.after);
        }
        if m.after.None? {
          if idx >= 0 {
            connections := connections[..idx] + connections[idx + 1..];
          }
        } else if idx >= 0 {
          connections := connections[idx := m.after.value];
        } else {
          connections := connections + [m.after.value];
        }
      }
      ApplyKeyDelta(m.keysBefore, m.keysAfter);
      if WellFormed(m) && UniqueSnapshot(old(Current())) {
        SortedIsUnique(keys);
        StableSortIndex(connections);
      }
      connections := StableSort(connections);
    }

    /** A copy that shares nothing with this vault. */
    method Clone() returns (copy: Vault)
      ensures fresh(copy) && copy.Value() == Value()
    {
      copy := new Vault(connections, keys, pendingBase, pendingMutations);
    }

    method InventoryOnly() returns (copy: Vault)
      ensures fresh(copy) && copy.Current() == Current()
    {
      copy := new Vault(connections, keys, None, []);
    }

    /** The pending base with the selected mutations applied to it. */
    method ReplayBase(selected: seq<PendingMutation>) returns (projected: Vault)
      requires pendingBase.Some?
      ensures fresh(projected)
      ensures UniqueSnapshot(pendingBase.value) && (forall k :: 0 <= k < |selected| ==> WellFormed(selected[k])) ==>
        UniqueSnapshot(projected.Current()) && View(projected.Current()) == Replay(View(pendingBase.value), selected)
    {
      projected := new Vault(pendingBase.value.connections, pendingBase.value.keys, None, []);
      ghost var faithful := UniqueSnapshot(pendingBase.value) && forall k :: 0 <= k < |selected| ==> WellFormed(selected[k]);
      for i := 0 to |selected|
        invariant fresh(projected) && projected != this
        invariant faithful ==> UniqueSnapshot(projected.Current())
        invariant faithful ==> View(projected.Current()) == Replay(View(pendingBase.value), selected[..i])
      {
        assert selected[..i + 1] == selected[..i] + [selected[i]];
        ReplayConcat(View(pendingBase.value), selected[..i], [selected[i]]);
        assert faithful ==> Replay(View(projected.Current()), [selected[i]]) == Apply(View(projected.Current()), selected[i]);
        projected.ApplyMutation(selected[i]);
      }
      assert selected[..|selected|] == selected;
    }

    /** The projection an exact publication scope sends. */
    method Project(only: string)
      returns (result: PreflightResult, projected: Vault, selected: seq<PendingMutation>, ghost places: seq<nat>)
      ensures result.Clear? <==> ValidLedger(pendingBase, pendingMutations) && (only == "" || Publishable(pendingMutations, only))
      ensures result.LedgerInvalid? <==> !ValidLedger(pendingBase, pendingMutations)
      ensures ValidLedger(pendingBase, pendingMutations) && only != "" ==> PreflightOf(pendingMutations, only, result, places)
      ensures fresh(projected)
      ensures result.Clear? && only == "" ==> selected == pendingMutations
      ensures result.Clear? && only != "" ==> pendingMutations != [] && selected == [pendingMutations[PendingIndex(pendingMutations, only).value]]
      ensures result.Clear? && Coherent(Value()) ==>
        UniqueSnapshot(projected.Current()) && View(projected.Current()) == Replay(View(BaseOf(Value())), selected)
    {
      result, places := Preflight(pendingBase, pendingMutations, only);
      PendingIndexFinds(pendingMutations, only);
      if !result.Clear? {
        projected := InventoryOnly();
        selected := [];
        return;
      }
      if pendingBase.None? || |pendingMutations| == 0 {
        projected := InventoryOnly();
        selected := [];
        return;
      }
      selected := if only == "" then pendingMutations else [pendingMutations[PendingIndex(pendingMutations, only).value]];
      projected := ReplayBase(selected);
      if Coherent(Value()) { LedgerWellFormed(View(BaseOf(Value())), pendingMutations); }
    }

    /** The projection of the recorded identifiers of a publishing intent: all of
        them in ledger order, or none of them because they were finalized. */
    method ProjectTransactionIds(ids: seq<string>) returns (ok: bool, projected: Vault, selected: seq<PendingMutation>)
      ensures fresh(projected)
      ensures ok <==> ValidLedger(pendingBase, pendingMutations)
                      && (AllMissing(pendingMutations, ids) || AllPending(pendingMutations, ids))
      ensures ok && AllMissing(pendingMutations, ids) ==> selected == []
      ensures ok && !AllMissing(pendingMutations, ids) ==> selected != [] && IdsOf(selected) == IdSet(ids)
      ensures ok && !AllMissing(pendingMutations, ids) ==> selected == Chosen(pendingMutations, IdSet(ids))
      ensures ok && !AllMissing(pendingMutations, ids) && Coherent(Value()) ==>
        UniqueSnapshot(projected.Current()) && View(projected.Current()) == Replay(View(BaseOf(Value())), selected)
    {
      ok, selected := false, [];
      projected := InventoryOnly();
      var valid := ValidateLedger(pendingBase, pendingMutations);
      if !valid { return; }
      var ordered, missing, located, places := LocateIds(pendingMutations, ids);
      if !ordered { return; }
      if missing == |ids| {
        return true, projected, [];
      }
      if missing != 0 { return; }
      ChosenAtPlaces(pendingMutations, places, located);
      forall k | 0 <= k < |ids| ensures located[k].id == ids[k] {
        PendingIndexFinds(pendingMutations, ids[k]);
      }
      assert IdsOf(located) == IdSet(ids);
      ok, selected := true, located;
      projected := ReplayBase(selected);
      if Coherent(Value()) { LedgerWellFormed(View(BaseOf(Value())), pendingMutations); }
    }

    /** Drops the published mutations and rebases what stays on their projection. */
    method MarkPublished(selected: seq<PendingMutation>, projected: Vault)
      modifies this`pendingBase, this`pendingMutations
      ensures selected == [] ==> Value() == old(Value())
      ensures selected != [] ==> Value() == Finalized(old(Value()), IdsOf(selected), old(projected.Current()))
    {
      if |selected| == 0 { return; }
      var published: set<string> := {};
      for i := 0 to |selected|
        invariant published == IdsOf(selected[..i])
      {
        assert IdsOf(selected[..i + 1]) == IdsOf(selected[..i]) + {selected[i].id};
        published := published + {selected[i].id};
      }
      assert selected[..|selected|] == selected;
      var remaining: seq<PendingMutation> := [];
      for i := 0 to |pendingMutations|
        invariant remaining == Remaining(pendingMutations[..i], published)
      {
        assert pendingMutations[..i + 1][..i] == pendingMutations[..i];
        if pendingMutations[i].id !in published {
          remaining := remaining + [pendingMutations[i]];
        }
      }
      assert pendingMutations[..|pendingMutations|] == pendingMutations;
      var base := projected.Current();
      pendingMutations := remaining;
      pendingBase := if |remaining| == 0 then None else Some(base);
    }

    /** The local part of finalizing a confirmed publication: the vault to save, if
        any of the recorded identifiers is still pending. */
    method FinalizeLocally(ids: seq<string>) returns (ok: bool, localAfter: Vault, ghost projected: Snapshot)
      ensures fresh(localAfter)
      ensures ok <==> ValidLedger(pendingBase, pendingMutations)
                      && (AllMissing(pendingMutations, ids) || AllPending(pendingMutations, ids))
      ensures !ok || AllMissing(pendingMutations, ids) ==> localAfter.Value() == Value()
      ensures ok && !AllMissing(pendingMutations, ids) ==> localAfter.Value() == Finalized(Value(), IdSet(ids), projected)
      ensures ok && Coherent(Value()) && DependencyClosed(pendingMutations, IdSet(ids)) ==>
        Coherent(localAfter.Value()) && localAfter.Current() == Current()
      ensures ok && !AllMissing(pendingMutations, ids) && Coherent(Value()) && DependencyClosed(pendingMutations, IdSet(ids)) ==>
        View(BaseOf(localAfter.Value())) == Replay(View(BaseOf(Value())), Chosen(pendingMutations, IdSet(ids)))
    {
      var projectedVault: Vault, selected: seq<PendingMutation>;
      ok, projectedVault, selected := ProjectTransactionIds(ids);
      projected := projectedVault.Current();
      localAfter := Clone();
      if !ok || |selected| == 0 { return; }
      localAfter.MarkPublished(selected, projectedVault);
      if Coherent(Value()) && DependencyClosed(pendingMutations, IdSet(ids)) {
        FinalizeKeepsCoherent(Value(), IdSet(ids), projected);
      }
    }
  }

  /** The names in `done` already have their patched material, the others their old one. */
  ghost predicate PatchedOn(keys: map<string, string>, table: map<string, string>,
                            before: map<string, string>, after: map<string, string>, done: set<string>)
  {
    forall n :: Get(keys, n) == if n in done then PatchedKey(table, before, after, n) else Get(table, n)
  }

  lemma PatchOne(previous: map<string, string>, keys: map<string, string>, table: map<string, string>,
                 before: map<string, string>, after: map<string, string>, done: set<string>, name: string)
    requires PatchedOn(previous, table, before, after, done) && name !in done
    requires if Get(before, name) == Get(after, name) then keys == previous
             else if name in after then keys == previous[name := after[name]]
             else keys == previous - {name}
    ensures PatchedOn(keys, table, before, after, done + {name})
  {
    forall n ensures Get(keys, n) == if n in done + {name} then PatchedKey(table, before, after, n) else Get(table, n) {
      assert Get(previous, n) == if n in done then PatchedKey(table, before, after, n) else Get(table, n);
    }
  }

  lemma PatchedAll(keys: map<string, string>, table: map<string, string>,
                   before: map<string, string>, after: map<string, string>, done: set<string>)
    requires PatchedOn(keys, table, before, after, done) && done == before.Keys + after.Keys
    ensures keys == Patch(table, before, after)
  {
    forall n ensures Get(keys, n) == Get(Patch(table, before, after), n) {
      assert Get(keys, n) == if n in done then PatchedKey(table, before, after, n) else Get(table, n);
    }
    GetExtensional(keys, Patch(table, before, after));
  }
}
