/** Host mutations: the candidate inventory, its validation, and the mutation
    recorded for it.
 */
module HostPolicy {
  import opened Inventory
  import opened Ordering
  import opened Ledger
  import opened Dependencies
  import opened VaultState
  import opened Vaults
  import opened Text

  datatype HostAction = HostAdd | HostUpdate | HostUpsert | HostRemove | Unsupported

  /** A credential file once it is read and checked. */
  datatype Credential = Unusable(reason: Failure) | Content(text: string)

  datatype HostChange = HostChange(
    action: HostAction, alias: string,
    host: Option<string>, port: Option<int>, user: Option<string>, group: Option<string>,
    transfer: Option<string>, proxyJump: Option<string>,
    passwordFile: Option<Credential>, savedKey: Option<string>,
    keyFile: Option<Credential>, keyName: Option<string>,
    pruneKey: bool, verify: bool)

  datatype Failure =
    | AliasNotFound | AlreadyExists | InvalidArguments | InvalidAlias | InvalidAddress | InvalidUser | InvalidGroup
    | AuthenticationRequired | SavedKeyNotFound | PasswordFileFailed | KeyFileFailed | InvalidKey | KeyConflict

  /** What a host change did to the candidate inventory. */
  datatype Built =
    | Rejected(failure: Failure)
    | Candidate(operation: string, changed: bool, keyAdded: string, keyPruned: string)

  function Or<T>(o: Option<T>, default: T): T {
    match o
    case None => default
    case Some(v) => v
  }

  function Trimmed(o: Option<string>, default: string): string {
    match o
    case None => default
    case Some(v) => TrimSpace(v)
  }

  // ----- validation

  function ValidateManagedConnection(alias: string, c: Endpoint, keys: seq<SSHKey>): Option<Failure> {
    if TrimSpace(c.host) == "" then Some(InvalidAddress)
    else if c.host != TrimSpace(c.host) || ContainsAny(c.host, {' ', '\t', '\r', '\n', '/', '@'}) || Contains(c.host, "://") then Some(InvalidAddress)
    else if c.host[0] == '[' || c.host[|c.host| - 1] == ']' then Some(InvalidAddress)
    else if TrimSpace(c.user) == "" || ContainsAny(c.user, {' ', '\t', '\r', '\n'}) || HasControlCharacter(c.user) then Some(InvalidUser)
    else if c.port < 1 || c.port > 65535 then Some(InvalidArguments)
    else if HasControlCharacter(c.group) then Some(InvalidGroup)
    else if c.proxyJump != "" && (HasControlCharacter(c.proxyJump) || ContainsAny(c.proxyJump, {' ', '\t'})) then Some(InvalidArguments)
    else if c.proxyJump != "" && c.proxyJump == alias then Some(InvalidArguments)
    else if c.password == "" && c.keyName == "" then Some(AuthenticationRequired)
    else if c.keyName != "" && Lookup(keys, c.keyName).None? then Some(SavedKeyNotFound)
    else None
  }

  // ----- the candidate

  predicate ModeAccepted(change: HostChange) {
    change.transfer.Some? ==> NormalizeTransfer(change.transfer.value).Some?
  }

  /** The settings asked for, credentials aside. */
  function Requested(start: Endpoint, change: HostChange): Endpoint
    requires ModeAccepted(change)
  {
    start.(host := Trimmed(change.host, start.host), port := Or(change.port, start.port),
           user := Trimmed(change.user, start.user), group := Trimmed(change.group, start.group),
           transfer := if change.transfer.Some? then NormalizeTransfer(change.transfer.value).value else start.transfer,
           proxyJump := Trimmed(change.proxyJump, start.proxyJump))
  }

  predicate UsesKeyFile(change: HostChange) {
    change.passwordFile.None? && change.savedKey.None? && change.keyFile.Some?
  }

  /** The credentials that are read can be used. */
  predicate Readable(change: HostChange) {
    && (change.passwordFile.Some? ==> change.passwordFile.value.Content?)
    && (UsesKeyFile(change) ==> change.keyFile.value.Content?)
  }

  /** The name under which the key of a host is saved. */
  function KeyNameFor(current: Endpoint, change: HostChange): string {
    var given := Trimmed(change.keyName, "");
    if given != "" then given else if current.keyName != "" then current.keyName else change.alias
  }

  /** Exactly one kind of credential is in force after a change of credentials. */
  function WithCredentials(e: Endpoint, change: HostChange): Endpoint
    requires Readable(change)
  {
    if change.passwordFile.Some? then e.(password := change.passwordFile.value.text, keyName := "")
    else if change.savedKey.Some? then e.(keyName := TrimSpace(change.savedKey.value), password := "")
    else if change.keyFile.Some? then e.(keyName := KeyNameFor(e, change), password := "")
    else e
  }

  /** The first key of that name holds the material, at the end of the slice when there was none. */
  function Placed(keys: seq<SSHKey>, name: string, material: string): seq<SSHKey> {
    if keys == [] then [Named(name, material)]
    else if keys[0].name != name then [keys[0]] + Placed(keys[1..], name, material)
    else if TrimSpace(keys[0].value) == material then keys
    else [Named(name, material)] + keys[1..]
  }

  /** The saved keys after the change of credentials. */
  function KeysChosen(keys: seq<SSHKey>, current: Endpoint, change: HostChange): seq<SSHKey>
    requires Readable(change)
  {
    if UsesKeyFile(change) then Placed(keys, KeyNameFor(current, change), TrimSpace(change.keyFile.value.text)) else keys
  }

  function StartingPoint(existing: Option<Endpoint>): Endpoint {
    match existing
    case None => Endpoint("", 22, "", "", "", "", "", "")
    case Some(e) => if e.port == 0 then e.(port := 22) else e
  }

  /** Only the changed alias, and keys no other alias uses, may differ. */
  ghost predicate OnlyAlias(before: Inv, after: Inv, alias: string) {
    && (forall c :: c != alias ==> Get(after.conns, c) == Get(before.conns, c))
    && (forall c :: c in before.conns && c != alias && before.conns[c].keyName != "" ==>
          Get(after.keys, before.conns[c].keyName) == Get(before.keys, before.conns[c].keyName))
  }

  /** What the operations rely on in the vault they start from. */
  ghost predicate Sound(s: Snapshot) {
    UniqueSnapshot(s) && Closed(View(s)) && NamesPresent(View(s))
  }

  method KeyReferenceCountExcept(connections: seq<Connection>, name: string, exceptAlias: string) returns (count: nat)
    ensures count > 0 <==> exists k :: 0 <= k < |connections| && connections[k].name != exceptAlias && connections[k].value.keyName == name
  {
    count := 0;
    for i := 0 to |connections|
      invariant count > 0 <==> exists k :: 0 <= k < i && connections[k].name != exceptAlias && connections[k].value.keyName == name
    {
      if connections[i].name != exceptAlias && connections[i].value.keyName == name {
        count := count + 1;
      }
    }
  }

  ghost predicate NobodyElseUses(connections: seq<Connection>, alias: string, keyName: string) {
    forall k :: 0 <= k < |connections| && connections[k].name != alias ==> connections[k].value.keyName != keyName
  }

  // ----- when a change is refused, and why

  /** A key file is refused when it cannot be read, for a bad name, and when its name is taken by
      other material that is not this host's alone. */
  ghost function KeyRefusal(s: Snapshot, current: Endpoint, change: HostChange): Option<Failure>
    requires change.keyFile.Some?
  {
    match change.keyFile.value
    case Unusable(reason) => Some(reason)
    case Content(text) =>
      var name := KeyNameFor(current, change);
      if !SafeName(name) then Some(InvalidArguments)
      else match Lookup(s.keys, name)
        case None => None
        case Some(material) =>
          if TrimSpace(material) == TrimSpace(text) then None
          else if current.keyName == name && NobodyElseUses(s.connections, change.alias, name) then None
          else Some(KeyConflict)
  }

  ghost function CredentialRefusal(s: Snapshot, current: Endpoint, change: HostChange): Option<Failure> {
    if change.passwordFile.Some? then
      if change.passwordFile.value.Unusable? then Some(change.passwordFile.value.reason) else None
    else if change.savedKey.Some? then
      if TrimSpace(change.savedKey.value) == "" || Lookup(s.keys, TrimSpace(change.savedKey.value)).None? then Some(SavedKeyNotFound)
      else None
    else if change.keyFile.Some? then KeyRefusal(s, current, change)
    else None
  }

  /** The host as it is before the change. */
  function HostBefore(s: Snapshot, change: HostChange): Endpoint {
    StartingPoint(Lookup(s.connections, change.alias))
  }

  /** The host and the saved keys the change asks for. */
  function HostAsked(s: Snapshot, change: HostChange): Endpoint
    requires ModeAccepted(change) && Readable(change)
  {
    WithCredentials(Requested(HostBefore(s, change), change), change)
  }

  function KeysAsked(s: Snapshot, change: HostChange): seq<SSHKey>
    requires ModeAccepted(change) && Readable(change)
  {
    KeysChosen(s.keys, Requested(HostBefore(s, change), change), change)
  }

  /** The name under which the change saves a key that was not there. */
  function KeyAddedBy(s: Snapshot, change: HostChange): string
    requires ModeAccepted(change) && Readable(change)
  {
    var name := HostAsked(s, change).keyName;
    if UsesKeyFile(change) && Lookup(s.keys, name).None? then name else ""
  }

  ghost function EditRefusal(s: Snapshot, change: HostChange): (r: Option<Failure>)
    ensures r.None? ==> ModeAccepted(change) && Readable(change)
  {
    if !ModeAccepted(change) then Some(InvalidArguments)
    else
      var refusal := CredentialRefusal(s, Requested(HostBefore(s, change), change), change);
      if refusal.Some? then refusal
      else ValidateManagedConnection(change.alias, HostAsked(s, change), KeysAsked(s, change))
  }

  ghost function HostRefusal(s: Snapshot, change: HostChange): Option<Failure> {
    var there := Lookup(s.connections, change.alias).Some?;
    match change.action
    case HostRemove => if there then None else Some(AliasNotFound)
    case Unsupported => Some(InvalidArguments)
    case _ =>
      if change.action == HostAdd && there then Some(AlreadyExists)
      else if change.action == HostUpdate && !there then Some(AliasNotFound)
      else if !there && !SafeName(change.alias) then Some(InvalidAlias)
      else EditRefusal(s, change)
  }

  /** The change differs from what is there. */
  ghost predicate ChangesHost(s: Snapshot, change: HostChange)
    requires HostRefusal(s, change).None?
  {
    || change.action == HostRemove || Lookup(s.connections, change.alias).None?
    || HostAsked(s, change) != HostBefore(s, change) || KeysAsked(s, change) != s.keys
  }

  // ----- installing a key

  datatype Installed = Refused(failure: Failure) | Key(name: string, added: bool)

  /** The key of that name holds the material, and every other key is as before. */
  ghost predicate KeyPlaced(before: seq<SSHKey>, after: seq<SSHKey>, name: string, text: string, added: bool) {
    && Unique(after)
    && name in Index(after) && TrimSpace(Index(after)[name]) == TrimSpace(text)
    && (forall n :: n != name ==> Get(Index(after), n) == Get(Index(before), n))
    && (added <==> name !in Index(before))
  }

  lemma {:induction false} PlacedBehind(front: seq<SSHKey>, back: seq<SSHKey>, name: string, material: string)
    requires forall k :: 0 <= k < |front| ==> front[k].name != name
    ensures Placed(front + back, name, material) == front + Placed(back, name, material)
    ensures Lookup(front + back, name) == Lookup(back, name)
    decreases |front|
  {
    var keys, placed := front + back, Placed(back, name, material);
    if front == [] {
      assert keys == back && [] + placed == placed;
    } else {
      var tail := front[1..];
      PlacedBehind(tail, back, name, material);
      assert keys[0] == front[0] && keys[1..] == tail + back;
      assert [front[0]] + (tail + placed) == front + placed;
    }
  }

  lemma PlacedHere(back: seq<SSHKey>, name: string, material: string)
    requires back != [] && back[0].name == name
    ensures Lookup(back, name) == Some(back[0].value)
    ensures Placed(back, name, material)
         == if TrimSpace(back[0].value) == material then back else [Named(name, material)] + back[1..]
  {
  }

  lemma PlacedAt(keys: seq<SSHKey>, i: nat, name: string, material: string)
    requires i < |keys| && keys[i].name == name && forall k :: 0 <= k < i ==> keys[k].name != name
    ensures Lookup(keys, name) == Some(keys[i].value)
    ensures Placed(keys, name, material) == if TrimSpace(keys[i].value) == material then keys else keys[i := Named(name, material)]
  {
    var front, back := keys[..i], keys[i..];
    assert keys == front + back;
    PlacedBehind(front, back, name, material);
    PlacedHere(back, name, material);
    ReplacedBehind(keys, front, back, Named(name, material));
  }

  lemma ReplacedBehind(keys: seq<SSHKey>, front: seq<SSHKey>, back: seq<SSHKey>, key: SSHKey)
    requires keys == front + back && back != []
    ensures keys[|front| := key] == front + ([key] + back[1..])
  {
  }

  lemma PlacedLast(keys: seq<SSHKey>, name: string, material: string)
    requires forall k :: 0 <= k < |keys| ==> keys[k].name != name
    ensures Lookup(keys, name).None? && Placed(keys, name, material) == keys + [Named(name, material)]
  {
    PlacedBehind(keys, [], name, material);
    assert keys + [] == keys;
  }

  lemma {:induction false} FirstPlace(keys: seq<SSHKey>, name: string) returns (i: nat)
    requires Lookup(keys, name).Some?
    ensures i < |keys| && keys[i].name == name && forall k :: 0 <= k < i ==> keys[k].name != name
  {
    i := 0;
    if keys[0].name != name {
      var j := FirstPlace(keys[1..], name);
      i := j + 1;
    }
  }

  /** A placed key is the only difference of the table. */
  lemma PlacedIsPlaced(keys: seq<SSHKey>, name: string, text: string)
    requires Unique(keys)
    ensures KeyPlaced(keys, Placed(keys, name, TrimSpace(text)), name, text, Lookup(keys, name).None?)
  {
    var material := TrimSpace(text);
    TrimTwice(text);
    IndexIsLookup(keys, name);
    if Lookup(keys, name).None? {
      LookupMembers(keys, name);
      PlacedLast(keys, name, material);
      AppendIndex(keys, Named(name, material));
    } else {
      var i := FirstPlace(keys, name);
      PlacedAt(keys, i, name, material);
      ReplaceAt(keys, i, Named(name, material));
    }
  }

  /** A key that was not refused changes one entry of the table at most, and never one that another
      connection uses. */
  lemma InstalledIsSafe(s: Snapshot, current: Endpoint, change: HostChange)
    requires change.keyFile.Some? && KeyRefusal(s, current, change).None? && Unique(s.keys)
    ensures var name, text := KeyNameFor(current, change), change.keyFile.value.text;
      var keys := Placed(s.keys, name, TrimSpace(text));
      && KeyPlaced(s.keys, keys, name, text, Lookup(s.keys, name).None?)
      && (Lookup(s.keys, name).Some? && keys != s.keys ==> NobodyElseUses(s.connections, change.alias, name))
  {
    var name, text := KeyNameFor(current, change), change.keyFile.value.text;
    PlacedIsPlaced(s.keys, name, text);
    if Lookup(s.keys, name).Some? {
      var i := FirstPlace(s.keys, name);
      PlacedAt(s.keys, i, name, TrimSpace(text));
    }
  }

  /** Saves the key read for a host, under a name that no other host's key has. */
  method InstallHostKey(v: Vault, current: Endpoint, change: HostChange) returns (result: Installed)
    requires change.keyFile.Some?
    modifies v`keys
    ensures result.Refused? <==> KeyRefusal(old(v.Current()), current, change).Some?
    ensures result.Refused? ==> result.failure == KeyRefusal(old(v.Current()), current, change).value && v.keys == old(v.keys)
    ensures result.Key? ==> change.keyFile.value.Content? && SafeName(result.name) && result.name == KeyNameFor(current, change)
    ensures result.Key? ==> v.keys == Placed(old(v.keys), result.name, TrimSpace(change.keyFile.value.text))
    ensures result.Key? ==> (result.added <==> Lookup(old(v.keys), result.name).None?)
  {
    if change.keyFile.value.Unusable? { return Refused(change.keyFile.value.reason); }
    var material := TrimSpace(change.keyFile.value.text);
    var name := Trimmed(change.keyName, "");
    if name == "" {
      name := if current.keyName != "" then current.keyName else change.alias;
    }
    if !SafeName(name) { return Refused(InvalidArguments); }
    var i := FindKey(v.keys, name);
    if i < 0 {
      PlacedLast(v.keys, name, material);
      v.keys := v.keys + [Named(name, material)];
      return Key(name, true);
    }
    PlacedAt(v.keys, i, name, material);
    if TrimSpace(v.keys[i].value) == material { return Key(name, false); }
    if current.keyName != name { return Refused(KeyConflict); }
    var others := KeyReferenceCountExcept(v.connections, name, change.alias);
    if others > 0 { return Refused(KeyConflict); }
    v.keys := v.keys[i := Named(name, material)];
    return Key(name, false);
  }

  method FindKey(keys: seq<SSHKey>, name: string) returns (i: int)
    ensures -1 <= i < |keys| && (i >= 0 ==> keys[i].name == name)
    ensures forall k :: 0 <= k < |keys| && (i < 0 || k < i) ==> keys[k].name != name
  {
    for k := 0 to |keys|
      invariant forall j :: 0 <= j < k ==> keys[j].name != name
    {
      if keys[k].name == name { return k; }
    }
    return -1;
  }

  lemma TrimTwice(s: string)
    ensures TrimSpace(TrimSpace(s)) == TrimSpace(s)
  {
    var left, right := TrimExactly(s);
    TrimmedExactly(TrimSpace(s));
  }

  // ----- building the candidate

  /** The host is gone; its key too when it was to be pruned and nobody else uses it. */
  ghost predicate HostRemoved(before: Snapshot, after: Snapshot, change: HostChange, keyPruned: string) {
    var was := View(before);
    && change.alias in was.conns
    && View(after).conns == was.conns - {change.alias}
    && View(after).keys == (if keyPruned == "" then was.keys else was.keys - {keyPruned})
    && (keyPruned != "" <==>
          && change.pruneKey && was.conns[change.alias].keyName != ""
          && forall c :: c in was.conns && c != change.alias ==> was.conns[c].keyName != was.conns[change.alias].keyName)
    && (keyPruned != "" ==> keyPruned == was.conns[change.alias].keyName)
  }

  /** The host is what was asked for; at most the key it now uses is new. */
  ghost predicate HostEdited(before: Snapshot, after: Snapshot, change: HostChange, built: Built)
    requires built.Candidate?
  {
    var was, now := View(before), View(after);
    && EditRefusal(before, change).None?
    && change.alias in now.conns && now.conns[change.alias] == HostAsked(before, change)
    && now.conns == was.conns[change.alias := now.conns[change.alias]]
    && after.keys == KeysAsked(before, change)
    && (forall n :: Get(now.keys, n) != Get(was.keys, n) ==>
          UsesKeyFile(change) && n == now.conns[change.alias].keyName && n in now.keys)
    && (built.changed <==> change.alias !in was.conns || now.conns[change.alias] != HostBefore(before, change) || after.keys != before.keys)
    && built.operation == (if change.alias !in was.conns then "created" else if built.changed then "updated" else "unchanged")
    && built.keyAdded == KeyAddedBy(before, change) && built.keyPruned == ""
  }

  /** The connections that keep a key from being pruned, as they are counted. */
  ghost predicate CountedUse(left: map<string, Endpoint>, keyName: string) {
    exists c :: c in left && c != "" && left[c].keyName == keyName
  }

  /** A removal on any vault with unique names: the key goes exactly when it was to be pruned, is saved,
      and no connection is counted for it. */
  ghost predicate HostRemovedAsCounted(before: Snapshot, after: Snapshot, change: HostChange, keyPruned: string) {
    var was := View(before);
    && change.alias in was.conns && UniqueSnapshot(after)
    && View(after).conns == was.conns - {change.alias}
    && View(after).keys == (if keyPruned == "" then was.keys else was.keys - {keyPruned})
    && var keyName := was.conns[change.alias].keyName;
       (keyPruned != "" <==>
          change.pruneKey && keyName != "" && keyName in was.keys && !CountedUse(was.conns - {change.alias}, keyName))
       && (keyPruned != "" ==> keyPruned == keyName)
  }

  /** On a sound vault the count misses nobody. */
  lemma CountedIsExact(before: Snapshot, after: Snapshot, change: HostChange, keyPruned: string)
    requires Sound(before) && HostRemovedAsCounted(before, after, change, keyPruned)
    ensures HostRemoved(before, after, change, keyPruned)
  {
    var conns := View(before).conns;
    var left, keyName := conns - {change.alias}, conns[change.alias].keyName;
    if CountedUse(left, keyName) {
      var c :| c in left && c != "" && left[c].keyName == keyName;
      assert c in conns && c != change.alias;
    }
    forall c | c in conns && c != change.alias ensures c in left && c != "" && left[c] == conns[c] {
    }
  }

  lemma CountIsUse(left: seq<Connection>, keyName: string, count: nat)
    requires Unique(left)
    requires count > 0 <==> exists k :: 0 <= k < |left| && left[k].name != "" && left[k].value.keyName == keyName
    ensures count > 0 <==> CountedUse(Index(left), keyName)
  {
    IndexUnique(left);
    if count > 0 {
      var k :| 0 <= k < |left| && left[k].name != "" && left[k].value.keyName == keyName;
      assert left[k].name in Index(left);
    }
    if CountedUse(Index(left), keyName) {
      var c :| c in Index(left) && c != "" && Index(left)[c].keyName == keyName;
      var k := IndexHolder(left, c);
      assert left[k].name != "" && left[k].value.keyName == keyName;
    }
  }

  lemma RemoveKeepsSound(before: Snapshot, after: Snapshot, change: HostChange, keyPruned: string)
    requires Sound(before) && UniqueSnapshot(after) && HostRemoved(before, after, change, keyPruned)
    ensures Sound(after) && OnlyAlias(View(before), View(after), change.alias)
  {
    var was, now := View(before), View(after);
    forall c | c in was.conns && c != change.alias && was.conns[c].keyName != ""
      ensures Get(now.keys, was.conns[c].keyName) == Get(was.keys, was.conns[c].keyName) && was.conns[c].keyName in now.keys
    {
      assert was.conns[c].keyName in was.keys;
    }
  }

  lemma RemovedIsSound(before: Snapshot, after: Snapshot, change: HostChange, keyPruned: string)
    requires Sound(before) && HostRemovedAsCounted(before, after, change, keyPruned)
    ensures HostRemoved(before, after, change, keyPruned)
    ensures Sound(after) && OnlyAlias(View(before), View(after), change.alias)
  {
    CountedIsExact(before, after, change, keyPruned);
    RemoveKeepsSound(before, after, change, keyPruned);
  }

  method RemoveHost(v: Vault, updated: Vault, idx: nat, change: HostChange) returns (built: Built)
    requires updated != v && updated.Value() == v.Value()
    requires idx < |v.connections| && v.connections[idx].name == change.alias
    modifies updated`connections, updated`keys
    ensures built.Candidate? && built.operation == "removed" && built.changed && built.keyAdded == ""
    ensures UniqueSnapshot(v.Current()) ==> HostRemovedAsCounted(v.Current(), updated.Current(), change, built.keyPruned)
    ensures Sound(v.Current()) ==>
      && HostRemoved(v.Current(), updated.Current(), change, built.keyPruned)
      && Sound(updated.Current()) && OnlyAlias(View(v.Current()), View(updated.Current()), change.alias)
  {
    var removed := updated.connections[idx];
    var pruned := "";
    ghost var tried := false;
    updated.connections := updated.connections[..idx] + updated.connections[idx + 1..];
    if change.pruneKey && removed.value.keyName != "" {
      var count := KeyReferenceCountExcept(updated.connections, removed.value.keyName, "");
      if UniqueSnapshot(v.Current()) { CountWithout(v.Current(), idx, change.alias, updated.connections, count); }
      if count == 0 {
        tried := true;
        var found := updated.RemoveKeyByName(removed.value.keyName);
        if found { pruned := removed.value.keyName; }
      }
    }
    built := Candidate("removed", true, "", pruned);
    if UniqueSnapshot(v.Current()) {
      WithoutHost(v.Current(), idx, change.alias, updated.connections);
      RemovedTables(v.Current(), updated.Current(), idx, change, tried, pruned);
    }
    if Sound(v.Current()) { RemovedIsSound(v.Current(), updated.Current(), change, pruned); }
  }

  /** The connections without the removed one. */
  lemma WithoutHost(before: Snapshot, idx: nat, alias: string, left: seq<Connection>)
    requires UniqueSnapshot(before) && idx < |before.connections| && before.connections[idx].name == alias
    requires left == before.connections[..idx] + before.connections[idx + 1..]
    ensures Unique(left) && alias in View(before).conns && View(before).conns[alias] == before.connections[idx].value
    ensures Index(left) == View(before).conns - {alias}
  {
    RemoveAt(before.connections, idx);
    RemoveFirstIndex(before.connections, alias);
    IndexUnique(before.connections);
  }

  lemma CountWithout(before: Snapshot, idx: nat, alias: string, left: seq<Connection>, count: nat)
    requires UniqueSnapshot(before) && idx < |before.connections| && before.connections[idx].name == alias
    requires left == before.connections[..idx] + before.connections[idx + 1..]
    requires var keyName := before.connections[idx].value.keyName;
      count > 0 <==> exists k :: 0 <= k < |left| && left[k].name != "" && left[k].value.keyName == keyName
    ensures alias in View(before).conns
    ensures count > 0 <==> CountedUse(View(before).conns - {alias}, View(before).conns[alias].keyName)
  {
    WithoutHost(before, idx, alias, left);
    CountIsUse(left, before.connections[idx].value.keyName, count);
  }

  lemma RemovedTables(before: Snapshot, after: Snapshot, idx: nat, change: HostChange, tried: bool, keyPruned: string)
    requires UniqueSnapshot(before) && idx < |before.connections| && before.connections[idx].name == change.alias
    requires after.connections == before.connections[..idx] + before.connections[idx + 1..]
    requires var keyName := before.connections[idx].value.keyName;
      && after.keys == (if tried then RemoveFirst(before.keys, keyName) else before.keys)
      && keyPruned == (if tried && Lookup(before.keys, keyName).Some? then keyName else "")
      && tried == (change.pruneKey && keyName != "" && !CountedUse(View(before).conns - {change.alias}, keyName))
    ensures HostRemovedAsCounted(before, after, change, keyPruned)
  {
    var keyName := before.connections[idx].value.keyName;
    WithoutHost(before, idx, change.alias, after.connections);
    RemoveFirstIndex(before.keys, keyName);
    IndexIsLookup(before.keys, keyName);
    assert keyName !in View(before).keys ==> View(before).keys - {keyName} == View(before).keys;
  }

  method EditedFields(start: Endpoint, change: HostChange) returns (next: Option<Endpoint>)
    ensures next.Some? <==> ModeAccepted(change)
    ensures next.Some? ==> next.value == Requested(start, change)
  {
    var c := start;
    if change.host.Some? { c := c.(host := TrimSpace(change.host.value)); }
    if change.port.Some? { c := c.(port := change.port.value); }
    if change.user.Some? { c := c.(user := TrimSpace(change.user.value)); }
    if change.group.Some? { c := c.(group := TrimSpace(change.group.value)); }
    if change.transfer.Some? {
      var mode := NormalizeTransfer(change.transfer.value);
      if mode.None? { return None; }
      c := c.(transfer := mode.value);
    }
    if change.proxyJump.Some? { c := c.(proxyJump := TrimSpace(change.proxyJump.value)); }
    return Some(c);
  }

  datatype Authenticated = AuthRejected(failure: Failure) | Auth(next: Endpoint, keyAdded: string)

  /** The key table after the credentials of `alias` were changed. */
  ghost predicate KeysEdited(before: Snapshot, keys: seq<SSHKey>, alias: string, keyFile: bool, keyName: string) {
    && Unique(keys)
    && (forall n :: Get(Index(keys), n) != Get(Index(before.keys), n) ==> keyFile && n == keyName && n in Index(keys) && n != "")
    && (forall n :: n in Index(before.keys) && Get(Index(keys), n) != Get(Index(before.keys), n) ==> NobodyElseUses(before.connections, alias, n))
  }

  method Authenticate(updated: Vault, start: Endpoint, change: HostChange) returns (result: Authenticated)
    modifies updated`keys
    ensures result.AuthRejected? <==> CredentialRefusal(old(updated.Current()), start, change).Some?
    ensures result.AuthRejected? ==> result.failure == CredentialRefusal(old(updated.Current()), start, change).value
    ensures result.Auth? ==> Readable(change) && result.next == WithCredentials(start, change)
    ensures result.Auth? ==> updated.keys == KeysChosen(old(updated.keys), start, change)
    ensures result.Auth? ==> (result.keyAdded ==
      if UsesKeyFile(change) && Lookup(old(updated.keys), result.next.keyName).None? then result.next.keyName else "")
  {
    if change.passwordFile.Some? {
      match change.passwordFile.value
      case Unusable(reason) => return AuthRejected(reason);
      case Content(password) => return Auth(start.(password := password, keyName := ""), "");
    } else if change.savedKey.Some? {
      var name := TrimSpace(change.savedKey.value);
      if name == "" || Lookup(updated.keys, name).None? { return AuthRejected(SavedKeyNotFound); }
      return Auth(start.(keyName := name, password := ""), "");
    } else if change.keyFile.Some? {
      var installed := InstallHostKey(updated, start, change);
      match installed
      case Refused(failure) => return AuthRejected(failure);
      case Key(name, added) =>
        return Auth(start.(keyName := name, password := ""), if added then name else "");
    }
    return Auth(start, "");
  }

  /** The key of every other alias is left as it was. */
  lemma OtherKeysStay(before: Snapshot, after: Snapshot, alias: string, keyFile: bool, keyName: string, c: string)
    requires UniqueSnapshot(before) && KeysEdited(before, after.keys, alias, keyFile, keyName)
    requires c in View(before).conns && c != alias && View(before).conns[c].keyName in View(before).keys
    ensures Get(View(after).keys, View(before).conns[c].keyName) == Get(View(before).keys, View(before).conns[c].keyName)
  {
    var k := IndexHolder(before.connections, c);
    assert before.connections[k].name != alias;
  }

  lemma EditKeepsSound(before: Snapshot, after: Snapshot, change: HostChange, built: Built)
    requires Sound(before) && UniqueSnapshot(after) && built.Candidate? && HostEdited(before, after, change, built)
    requires change.alias != ""
    requires KeysEdited(before, after.keys, change.alias, UsesKeyFile(change), View(after).conns[change.alias].keyName)
    ensures Sound(after) && OnlyAlias(View(before), View(after), change.alias)
  {
    var was, now := View(before), View(after);
    forall c | c in was.conns && c != change.alias && was.conns[c].keyName != ""
      ensures Get(now.keys, was.conns[c].keyName) == Get(was.keys, was.conns[c].keyName) && was.conns[c].keyName in now.keys
    {
      OtherKeysStay(before, after, change.alias, UsesKeyFile(change), now.conns[change.alias].keyName, c);
    }
    IndexIsLookup(after.keys, now.conns[change.alias].keyName);
    assert Get(now.keys, "") == Get(was.keys, "");
    EditStaysClosed(was, now, change.alias);
  }

  lemma EditStaysClosed(was: Inv, now: Inv, alias: string)
    requires alias in now.conns && now.conns == was.conns[alias := now.conns[alias]]
    requires now.conns[alias].keyName != "" ==> now.conns[alias].keyName in now.keys
    requires forall c :: c in was.conns && c != alias && was.conns[c].keyName != "" ==> was.conns[c].keyName in now.keys
    ensures Closed(now)
  {
    forall c | c in now.conns && now.conns[c].keyName != "" ensures now.conns[c].keyName in now.keys {
      if c != alias {
        assert c in was.conns && was.conns[c] == now.conns[c];
      }
    }
  }

  /** Only the key the host is to use changes, and only if nobody else uses it. */
  lemma KeysAskedEdited(s: Snapshot, change: HostChange)
    requires Unique(s.keys) && EditRefusal(s, change).None?
    ensures KeysEdited(s, KeysAsked(s, change), change.alias, UsesKeyFile(change), HostAsked(s, change).keyName)
  {
    if UsesKeyFile(change) {
      var name := HostAsked(s, change).keyName;
      PlacedIsPlaced(s.keys, name, change.keyFile.value.text);
      IndexIsLookup(s.keys, name);
      if Lookup(s.keys, name).Some? && TrimSpace(Lookup(s.keys, name).value) == TrimSpace(change.keyFile.value.text) {
        var i := FirstPlace(s.keys, name);
        PlacedAt(s.keys, i, name, TrimSpace(change.keyFile.value.text));
      }
    }
  }

  /** The key reported as added is the only one that is new. */
  lemma KeyAddedExactly(s: Snapshot, change: HostChange)
    requires Unique(s.keys) && EditRefusal(s, change).None?
    ensures Index(KeysAsked(s, change)).Keys - Index(s.keys).Keys == {KeyAddedBy(s, change)} - {""}
  {
    if UsesKeyFile(change) {
      var name := HostAsked(s, change).keyName;
      PlacedIsPlaced(s.keys, name, change.keyFile.value.text);
      NewNameOnly(Index(s.keys), Index(KeysAsked(s, change)), name);
    }
  }

  lemma NewNameOnly(before: map<string, string>, after: map<string, string>, name: string)
    requires name in after && name != "" && forall n :: n != name ==> Get(after, n) == Get(before, n)
    ensures after.Keys - before.Keys == (if name in before then {} else {name})
  {
    forall n | n in after && n != name ensures n in before {
      assert Get(after, n) == Get(before, n);
    }
  }

  /** The candidate with the host asked for in its place, or behind the others. */
  ghost predicate Edited(before: Snapshot, after: Snapshot, idx: int, change: HostChange, built: Built)
    requires -1 <= idx < |before.connections| && built.Candidate?
  {
    && EditRefusal(before, change).None?
    && after.keys == KeysAsked(before, change)
    && (var host := Named(change.alias, HostAsked(before, change));
        after.connections == if idx >= 0 then before.connections[idx := host] else before.connections + [host])
    && (built.changed <==> idx < 0 || HostAsked(before, change) != HostBefore(before, change) || after.keys != before.keys)
    && built.operation == (if idx < 0 then "created" else if built.changed then "updated" else "unchanged")
    && built.keyAdded == KeyAddedBy(before, change) && built.keyPruned == ""
  }

  /** Where the alias stands in the slice, if it does. */
  ghost predicate Stands(connections: seq<Connection>, alias: string, idx: int) {
    -1 <= idx < |connections|
    && if idx < 0 then Lookup(connections, alias).None?
       else connections[idx].name == alias && Lookup(connections, alias) == Some(connections[idx].value)
  }

  lemma EditedTables(before: Snapshot, after: Snapshot, idx: int, change: HostChange, built: Built)
    requires UniqueSnapshot(before) && Stands(before.connections, change.alias, idx) && built.Candidate?
    requires Edited(before, after, idx, change, built)
    ensures Unique(after.connections) && (change.alias in View(before).conns <==> idx >= 0)
    ensures View(after).conns == View(before).conns[change.alias := HostAsked(before, change)]
  {
    var host := Named(change.alias, HostAsked(before, change));
    IndexIsLookup(before.connections, change.alias);
    if idx >= 0 {
      ReplaceAt(before.connections, idx, host);
    } else {
      LookupMembers(before.connections, change.alias);
      AppendIndex(before.connections, host);
    }
  }

  /** On a sound vault the candidate is the edited inventory and stays sound. */
  lemma EditedIsSound(before: Snapshot, after: Snapshot, idx: int, change: HostChange, built: Built)
    requires Sound(before) && Stands(before.connections, change.alias, idx) && built.Candidate?
    requires Edited(before, after, idx, change, built) && (idx < 0 ==> SafeName(change.alias))
    ensures HostEdited(before, after, change, built)
    ensures Sound(after) && OnlyAlias(View(before), View(after), change.alias)
  {
    EditedTables(before, after, idx, change, built);
    KeysAskedEdited(before, change);
    EditKeepsSound(before, after, change, built);
  }

  // ----- the host after an edit, setting by setting

  /** The text is the word in small or capital letters. */
  predicate Spells(text: string, word: string) {
    |text| == |word|
    && forall i :: 0 <= i < |word| ==> text[i] == word[i] || ('a' <= word[i] <= 'z' && text[i] == word[i] - 'a' + 'A')
  }

  /** The modes a host can be given; the default is stored as the empty string. */
  predicate TransferGiven(given: string, now: string) {
    var mode := TrimSpace(given);
    || ((mode == "" || Spells(mode, "auto")) && now == "")
    || (Spells(mode, "shell") && now == "shell")
    || (Spells(mode, "sftp") && now == "sftp")
  }

  lemma SpelledLower(text: string, word: string)
    requires forall i :: 0 <= i < |word| ==> 'a' <= word[i] <= 'z'
    ensures Spells(text, word) <==> Lower(text) == word
  {
    if Spells(text, word) {
      assert forall i :: 0 <= i < |text| ==> Lower(text)[i] == word[i];
    }
    if Lower(text) == word {
      forall i | 0 <= i < |word| ensures text[i] == word[i] || text[i] == word[i] - 'a' + 'A' {
        assert Lower(text)[i] == word[i];
      }
    }
  }

  lemma TransferExactly(given: string, now: string)
    ensures TransferGiven(given, now) <==> NormalizeTransfer(given) == Some(now)
  {
    var mode := TrimSpace(given);
    SpelledLower(mode, "auto");
    SpelledLower(mode, "shell");
    SpelledLower(mode, "sftp");
  }

  /** Every setting of the host is the one the change gives, or the one the host had before; a host that is
      new, or has no port, starts with port 22. A change of credentials leaves one kind of them. */
  ghost predicate SettingBySetting(was: Option<Endpoint>, now: Endpoint, change: HostChange) {
    && now.host == (if change.host.Some? then TrimSpace(change.host.value) else if was.Some? then was.value.host else "")
    && now.user == (if change.user.Some? then TrimSpace(change.user.value) else if was.Some? then was.value.user else "")
    && now.group == (if change.group.Some? then TrimSpace(change.group.value) else if was.Some? then was.value.group else "")
    && now.proxyJump == (if change.proxyJump.Some? then TrimSpace(change.proxyJump.value) else if was.Some? then was.value.proxyJump else "")
    && now.port == (if change.port.Some? then change.port.value else if was.Some? && was.value.port != 0 then was.value.port else 22)
    && (if change.transfer.Some? then TransferGiven(change.transfer.value, now.transfer)
        else now.transfer == if was.Some? then was.value.transfer else "")
    && (if change.passwordFile.Some? then change.passwordFile == Some(Content(now.password))
        else now.password == if change.savedKey.Some? || change.keyFile.Some? || was.None? then "" else was.value.password)
    && now.keyName == (if change.passwordFile.Some? then ""
                       else if change.savedKey.Some? then TrimSpace(change.savedKey.value)
                       else if change.keyFile.Some? then
                         if change.keyName.Some? && TrimSpace(change.keyName.value) != "" then TrimSpace(change.keyName.value)
                         else if was.Some? && was.value.keyName != "" then was.value.keyName
                         else change.alias
                       else if was.Some? then was.value.keyName else "")
  }

  lemma AskedBySetting(s: Snapshot, change: HostChange)
    requires ModeAccepted(change) && Readable(change)
    ensures SettingBySetting(Lookup(s.connections, change.alias), HostAsked(s, change), change)
  {
    if change.transfer.Some? { TransferExactly(change.transfer.value, HostAsked(s, change).transfer); }
  }

  /** There is one such host only. */
  lemma SettingsDetermined(was: Option<Endpoint>, now: Endpoint, other: Endpoint, change: HostChange)
    requires SettingBySetting(was, now, change) && SettingBySetting(was, other, change)
    ensures now == other
  {
    if change.transfer.Some? {
      TransferExactly(change.transfer.value, now.transfer);
      TransferExactly(change.transfer.value, other.transfer);
    }
  }

  /** The edited host stands where the alias stood, or behind the others; every other connection is as before. */
  ghost predicate HostStored(before: seq<Connection>, after: seq<Connection>, change: HostChange) {
    exists k :: 0 <= k < |after| && after[k].name == change.alias
      && SettingBySetting(Lookup(before, change.alias), after[k].value, change)
      && if Lookup(before, change.alias).None? then after == before + [after[k]]
         else k < |before| && before[k].name == change.alias && after == before[k := after[k]]
  }

  lemma EditedIsStored(before: Snapshot, after: Snapshot, idx: int, change: HostChange, built: Built)
    requires Stands(before.connections, change.alias, idx) && built.Candidate? && Edited(before, after, idx, change, built)
    ensures HostStored(before.connections, after.connections, change)
  {
    AskedBySetting(before, change);
    var k := if idx >= 0 then idx else |before.connections|;
    assert after.connections[k] == Named(change.alias, HostAsked(before, change));
  }

  method EditHost(v: Vault, updated: Vault, idx: int, change: HostChange) returns (built: Built)
    requires updated != v && updated.Value() == v.Value() && Stands(v.connections, change.alias, idx)
    modifies updated`connections, updated`keys
    ensures built.Rejected? <==> EditRefusal(v.Current(), change).Some?
    ensures built.Rejected? ==> built.failure == EditRefusal(v.Current(), change).value
    ensures built.Candidate? ==> Edited(v.Current(), updated.Current(), idx, change, built)
  {
    var start := StartingPoint(if idx >= 0 then Some(updated.connections[idx].value) else None);
    var fields := EditedFields(start, change);
    if fields.None? { return Rejected(InvalidArguments); }
    var auth := Authenticate(updated, fields.value, change);
    if auth.AuthRejected? { return Rejected(auth.failure); }
    var connection := Named(change.alias, auth.next);
    var failure := ValidateManagedConnection(change.alias, auth.next, updated.keys);
    if failure.Some? { return Rejected(failure.value); }
    if idx >= 0 {
      updated.connections := updated.connections[idx := connection];
    } else {
      updated.connections := updated.connections + [connection];
    }
    var changed := idx < 0 || start != auth.next || v.keys != updated.keys;
    built := Candidate(if idx < 0 then "created" else if changed then "updated" else "unchanged", changed, auth.keyAdded, "");
  }

  /** Everything an accepted edit is promised to do. */
  lemma EditOutcome(before: Snapshot, after: Snapshot, idx: int, change: HostChange, built: Built)
    requires Stands(before.connections, change.alias, idx) && built.Candidate?
    requires Edited(before, after, idx, change, built) && (idx < 0 ==> SafeName(change.alias))
    ensures HostStored(before.connections, after.connections, change)
    ensures Sound(before) ==>
      && HostEdited(before, after, change, built)
      && Sound(after) && OnlyAlias(View(before), View(after), change.alias)
  {
    EditedIsStored(before, after, idx, change, built);
    if Sound(before) { EditedIsSound(before, after, idx, change, built); }
  }

  /** What the change is called where it is recorded. */
  function Operation(s: Snapshot, change: HostChange, changed: bool): string {
    if change.action == HostRemove then "removed"
    else if Lookup(s.connections, change.alias).None? then "created"
    else if changed then "updated"
    else "unchanged"
  }

  /** The candidate of a change, or exactly the reason why there is none. */
  method BuildHostCandidate(v: Vault, change: HostChange) returns (built: Built, updated: Vault)
    ensures fresh(updated) && updated.pendingBase == v.pendingBase && updated.pendingMutations == v.pendingMutations
    ensures built.Rejected? <==> HostRefusal(v.Current(), change).Some?
    ensures built.Rejected? ==> built.failure == HostRefusal(v.Current(), change).value
    ensures built.Candidate? ==> (built.changed <==> ChangesHost(v.Current(), change))
    ensures built.Candidate? ==> built.operation == Operation(v.Current(), change, built.changed)
    ensures built.Candidate? && change.action != HostRemove ==> HostStored(v.connections, updated.connections, change)
    ensures built.Candidate? && Sound(v.Current()) && change.action == HostRemove ==>
      HostRemoved(v.Current(), updated.Current(), change, built.keyPruned)
      && built.operation == "removed" && built.keyAdded == ""
    ensures built.Candidate? && Sound(v.Current()) && change.action != HostRemove ==>
      HostEdited(v.Current(), updated.Current(), change, built)
    ensures built.Candidate? && Sound(v.Current()) ==> Sound(updated.Current()) && OnlyAlias(View(v.Current()), View(updated.Current()), change.alias)
  {
    updated := v.Clone();
    built := Rejected(InvalidArguments);
    var idx := v.ExactConnectionIndex(change.alias);
    if change.action == HostRemove {
      if idx < 0 { return Rejected(AliasNotFound), updated; }
      built := RemoveHost(v, updated, idx, change);
      return;
    }
    if change.action == HostAdd && idx >= 0 { return Rejected(AlreadyExists), updated; }
    if change.action == HostUpdate && idx < 0 { return Rejected(AliasNotFound), updated; }
    if change.action == Unsupported { return Rejected(InvalidArguments), updated; }
    if idx < 0 && !SafeName(change.alias) { return Rejected(InvalidAlias), updated; }
    built := EditHost(v, updated, idx, change);
    if built.Candidate? { EditOutcome(v.Current(), updated.Current(), idx, change, built); }
  }

  // ----- what is accepted

  /** A new alias or key name, character by character. */
  predicate PlainName(s: string) {
    && 0 < |s| < 129 && s[0] !in {'.', '_', '-'}
    && forall i :: 0 <= i < |s| ==>
         s[i] in {'.', '_', '-'} || '0' <= s[i] <= '9' || 'A' <= s[i] <= 'Z' || 'a' <= s[i] <= 'z'
  }

  predicate GoodAddress(s: string) {
    && s != "" && !IsSpace(s[0]) && !IsSpace(s[|s| - 1]) && s[0] != '[' && s[|s| - 1] != ']'
    && forall i :: 0 <= i < |s| ==> s[i] !in {' ', '\t', '\r', '\n', '/', '@'}
  }

  predicate GoodUser(s: string) {
    && !AllSpace(s) && forall i :: 0 <= i < |s| ==> s[i] > ' ' && s[i] != '\U{007F}'
  }

  predicate Printable(s: string) {
    forall i :: 0 <= i < |s| ==> s[i] >= ' ' && s[i] != '\U{007F}'
  }

  predicate GoodJump(s: string, alias: string) {
    s == "" || (s != alias && Printable(s) && ' ' !in s)
  }

  predicate Saved(keys: seq<SSHKey>, name: string) {
    exists k :: 0 <= k < |keys| && keys[k].name == name
  }

  lemma AddressExactly(s: string)
    ensures GoodAddress(s) <==>
      !(TrimSpace(s) == "" || s != TrimSpace(s) || ContainsAny(s, {' ', '\t', '\r', '\n', '/', '@'}) || Contains(s, "://")
        || s[0] == '[' || s[|s| - 1] == ']')
  {
    NeatExactly(s);
    if !ContainsAny(s, {' ', '\t', '\r', '\n', '/', '@'}) { NoScheme(s); }
  }

  lemma NeatExactly(s: string)
    ensures TrimSpace(s) != "" && s == TrimSpace(s) <==> s != "" && !IsSpace(s[0]) && !IsSpace(s[|s| - 1])
  {
    TrimmedExactly(s);
  }

  lemma NoScheme(s: string)
    requires !ContainsAny(s, {' ', '\t', '\r', '\n', '/', '@'})
    ensures !Contains(s, "://")
  {
    forall i | 0 <= i < |s| ensures s[i] != '/' {
      assert s[i] !in {' ', '\t', '\r', '\n', '/', '@'};
    }
    NoSlash(s);
  }

  /** Without a slash there is no scheme. */
  lemma {:induction false} NoSlash(s: string)
    requires forall i :: 0 <= i < |s| ==> s[i] != '/'
    ensures !Contains(s, "://")
  {
    if |s| >= 3 { assert s[..3][1] == s[1]; }
    if s != "" { NoSlash(s[1..]); }
  }

  /** A connection is accepted, or refused for the first of these conditions it fails. */
  lemma ManagedExactly(alias: string, c: Endpoint, keys: seq<SSHKey>)
    ensures var r := ValidateManagedConnection(alias, c, keys);
      if !GoodAddress(c.host) then r == Some(InvalidAddress)
      else if !GoodUser(c.user) then r == Some(InvalidUser)
      else if !(0 < c.port < 65536) then r == Some(InvalidArguments)
      else if !Printable(c.group) then r == Some(InvalidGroup)
      else if !GoodJump(c.proxyJump, alias) then r == Some(InvalidArguments)
      else if c.password == "" == c.keyName then r == Some(AuthenticationRequired)
      else if c.keyName != "" && !Saved(keys, c.keyName) then r == Some(SavedKeyNotFound)
      else r.None?
  {
    AddressExactly(c.host);
    TrimmedExactly(c.user);
    LookupMembers(keys, c.keyName);
  }

  lemma NameExactly(s: string)
    ensures SafeName(s) <==> PlainName(s)
  {
    assert PlainName(s) ==> IsAlnum(s[0]);
  }

  /** The key of a key file may be saved under the name: nobody has a key of that name, or it is the same
      key, or it is this host's own and nobody else's. */
  ghost predicate MayPlace(s: Snapshot, was: Option<Endpoint>, change: HostChange, name: string, text: string) {
    && PlainName(name)
    && match Lookup(s.keys, name)
       case None => true
       case Some(material) =>
         || TrimSpace(material) == TrimSpace(text)
         || (was.Some? && was.value.keyName == name && NobodyElseUses(s.connections, change.alias, name))
  }

  ghost predicate GoodCredentials(s: Snapshot, was: Option<Endpoint>, now: Endpoint, change: HostChange) {
    && (now.password != "" || now.keyName != "")
    && if UsesKeyFile(change) then
         change.keyFile.value.Content? && MayPlace(s, was, change, now.keyName, change.keyFile.value.text)
       else
         && (change.passwordFile.None? && change.savedKey.Some? ==> now.keyName != "")
         && (now.keyName != "" ==> Saved(s.keys, now.keyName))
  }

  ghost predicate GoodHost(s: Snapshot, was: Option<Endpoint>, now: Endpoint, change: HostChange) {
    && GoodCredentials(s, was, now, change)
    && GoodAddress(now.host) && GoodUser(now.user) && 0 < now.port < 65536
    && Printable(now.group) && GoodJump(now.proxyJump, change.alias)
  }

  ghost predicate AsksForGoodHost(s: Snapshot, was: Option<Endpoint>, change: HostChange) {
    exists now :: SettingBySetting(was, now, change) && GoodHost(s, was, now, change)
  }

  /** A change is acceptable if the alias is there as the action demands, and the host it asks for is good. */
  ghost predicate Acceptable(s: Snapshot, change: HostChange) {
    var was := Lookup(s.connections, change.alias);
    match change.action
    case HostRemove => was.Some?
    case Unsupported => false
    case _ =>
      && (change.action == HostAdd ==> was.None?)
      && (change.action == HostUpdate ==> was.Some?)
      && (was.None? ==> PlainName(change.alias))
      && AsksForGoodHost(s, was, change)
  }

  lemma CredentialsExactly(s: Snapshot, change: HostChange)
    requires ModeAccepted(change) && Readable(change)
    ensures var was, now := Lookup(s.connections, change.alias), HostAsked(s, change);
      GoodCredentials(s, was, now, change) <==>
        && CredentialRefusal(s, Requested(HostBefore(s, change), change), change).None?
        && (now.password != "" || now.keyName != "")
        && (now.keyName != "" ==> Saved(KeysAsked(s, change), now.keyName))
  {
    var now := HostAsked(s, change);
    NameExactly(now.keyName);
    LookupMembers(s.keys, now.keyName);
    if UsesKeyFile(change) { PlacedIsSaved(s.keys, now.keyName, TrimSpace(change.keyFile.value.text)); }
  }

  lemma {:induction false} PlacedIsSaved(keys: seq<SSHKey>, name: string, material: string)
    ensures Saved(Placed(keys, name, material), name)
  {
    var placed := Placed(keys, name, material);
    if keys == [] || keys[0].name == name {
      assert placed[0].name == name;
    } else {
      PlacedIsSaved(keys[1..], name, material);
      var k :| 0 <= k < |placed[1..]| && placed[1..][k].name == name;
      assert placed[k + 1].name == name;
    }
  }

  lemma GoodHostExactly(s: Snapshot, change: HostChange)
    requires ModeAccepted(change) && Readable(change)
    ensures GoodHost(s, Lookup(s.connections, change.alias), HostAsked(s, change), change) <==> EditRefusal(s, change).None?
  {
    CredentialsExactly(s, change);
    ManagedExactly(change.alias, HostAsked(s, change), KeysAsked(s, change));
  }

  lemma SettingIsAsked(s: Snapshot, now: Endpoint, change: HostChange)
    requires var was := Lookup(s.connections, change.alias);
      SettingBySetting(was, now, change) && GoodCredentials(s, was, now, change)
    ensures ModeAccepted(change) && Readable(change) && now == HostAsked(s, change)
  {
    if change.transfer.Some? { TransferExactly(change.transfer.value, now.transfer); }
    AskedBySetting(s, change);
    SettingsDetermined(Lookup(s.connections, change.alias), now, HostAsked(s, change), change);
  }

  lemma EditExactly(s: Snapshot, change: HostChange)
    ensures AsksForGoodHost(s, Lookup(s.connections, change.alias), change) <==> EditRefusal(s, change).None?
  {
    var was := Lookup(s.connections, change.alias);
    if EditRefusal(s, change).None? {
      GoodHostExactly(s, change);
      AskedBySetting(s, change);
    }
    if AsksForGoodHost(s, was, change) {
      var now :| SettingBySetting(was, now, change) && GoodHost(s, was, now, change);
      SettingIsAsked(s, now, change);
      GoodHostExactly(s, change);
    }
  }

  /** A change is accepted exactly if it is acceptable. */
  lemma AcceptedExactly(s: Snapshot, change: HostChange)
    ensures HostRefusal(s, change).None? <==> Acceptable(s, change)
  {
    NameExactly(change.alias);
    EditExactly(s, change);
  }

  /** What a credential file is refused for. */
  predicate FileReason(file: Option<Credential>) {
    file.Some? && file.value.Unusable? ==> file.value.reason in {InvalidArguments, PasswordFileFailed, KeyFileFailed, InvalidKey}
  }

  /** A key file is in conflict with other material saved under its name, unless the name is this host's
      own and nobody else's. */
  ghost predicate InConflict(s: Snapshot, was: Option<Endpoint>, change: HostChange) {
    && UsesKeyFile(change) && change.keyFile.value.Content?
    && var name := KeyNameFor(StartingPoint(was), change);
    && PlainName(name) && !MayPlace(s, was, change, name, change.keyFile.value.text)
  }

  lemma KeyReasons(s: Snapshot, current: Endpoint, change: HostChange)
    requires FileReason(change.keyFile) && UsesKeyFile(change)
    requires current.keyName == StartingPoint(Lookup(s.connections, change.alias)).keyName
    ensures var r, was := KeyRefusal(s, current, change), Lookup(s.connections, change.alias);
      && r !in {Some(AlreadyExists), Some(AliasNotFound), Some(InvalidAlias)}
      && (r == Some(KeyConflict) <==> InConflict(s, was, change))
  {
    NameExactly(KeyNameFor(current, change));
  }

  lemma CredentialReasons(s: Snapshot, change: HostChange)
    requires FileReason(change.passwordFile) && FileReason(change.keyFile) && ModeAccepted(change)
    ensures var r, was := CredentialRefusal(s, Requested(HostBefore(s, change), change), change), Lookup(s.connections, change.alias);
      && r !in {Some(AlreadyExists), Some(AliasNotFound), Some(InvalidAlias)}
      && (r == Some(KeyConflict) <==> InConflict(s, was, change))
  {
    if UsesKeyFile(change) { KeyReasons(s, Requested(HostBefore(s, change), change), change); }
  }

  lemma EditReasons(s: Snapshot, change: HostChange)
    requires FileReason(change.passwordFile) && FileReason(change.keyFile)
    ensures var r, was := EditRefusal(s, change), Lookup(s.connections, change.alias);
      && r !in {Some(AlreadyExists), Some(AliasNotFound), Some(InvalidAlias)}
      && (r == Some(KeyConflict) <==> ModeAccepted(change) && InConflict(s, was, change))
  {
    if ModeAccepted(change) {
      CredentialReasons(s, change);
      if Readable(change) { ManagedExactly(change.alias, HostAsked(s, change), KeysAsked(s, change)); }
    }
  }

  /** The refusals that concern the vault, and when they are given. */
  lemma RefusedExactly(s: Snapshot, change: HostChange)
    requires FileReason(change.passwordFile) && FileReason(change.keyFile)
    ensures var r, was := HostRefusal(s, change), Lookup(s.connections, change.alias);
      && (r == Some(AlreadyExists) <==> change.action == HostAdd && was.Some?)
      && (r == Some(AliasNotFound) <==> change.action in {HostUpdate, HostRemove} && was.None?)
      && (r == Some(InvalidAlias) <==> change.action in {HostAdd, HostUpsert} && was.None? && !PlainName(change.alias))
      && (change.action == HostUpdate && was.Some? ==>
            (r == Some(KeyConflict) <==> ModeAccepted(change) && InConflict(s, was, change)))
  {
    NameExactly(change.alias);
    EditReasons(s, change);
  }

  /** Asking again for what is already there is accepted and changes nothing; adding it again is not
      accepted. */
  lemma RetryChangesNothing(before: Snapshot, after: Snapshot, change: HostChange, built: Built)
    requires UniqueSnapshot(after) && built.Candidate? && HostEdited(before, after, change, built)
    requires change.action in {HostAdd, HostUpdate, HostUpsert}
    ensures change.action == HostAdd ==> HostRefusal(after, change) == Some(AlreadyExists)
    ensures change.action != HostAdd ==> HostRefusal(after, change).None? && !ChangesHost(after, change)
  {
    var host := HostAsked(before, change);
    IndexIsLookup(after.connections, change.alias);
    assert host.port != 0;
    assert HostBefore(after, change) == host;
    assert Requested(host, change) == host;
    assert WithCredentials(host, change) == host;
    RetryFindsKey(before, after.connections, change);
    assert HostAsked(after, change) == host && KeysAsked(after, change) == after.keys;
    assert ValidateManagedConnection(change.alias, host, after.keys).None?;
    assert EditRefusal(after, change).None?;
  }

  /** A key file once placed is found in place, so it is neither refused nor placed again. */
  lemma RetryFindsKey(before: Snapshot, connections: seq<Connection>, change: HostChange)
    requires EditRefusal(before, change).None?
    ensures var host, keys := HostAsked(before, change), KeysAsked(before, change);
      && CredentialRefusal(Snapshot(connections, keys), host, change).None?
      && KeysChosen(keys, host, change) == keys
  {
    if UsesKeyFile(change) {
      var start, text := Requested(HostBefore(before, change), change), change.keyFile.value.text;
      var name := KeyNameFor(start, change);
      PlacedTwice(before.keys, name, text);
    }
  }

  lemma {:induction false} PlacedTwice(keys: seq<SSHKey>, name: string, text: string)
    ensures var once := Placed(keys, name, TrimSpace(text));
      && Lookup(once, name).Some? && TrimSpace(Lookup(once, name).value) == TrimSpace(text)
      && Placed(once, name, TrimSpace(text)) == once
  {
    TrimTwice(text);
    if keys != [] && keys[0].name != name {
      PlacedTwice(keys[1..], name, text);
    }
  }
}
