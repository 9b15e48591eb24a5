/** The inventory of a vault: named records kept in slices, the name-indexed
    view of a slice, and the pending mutations of the ledger.
 */
module Inventory {

  datatype Option<+T> = None | Some(value: T)

  /** A record of a slice that is looked up by its name. */
  datatype Named<V> = Named(name: string, value: V)

  /** Everything a connection holds besides its alias. */
  datatype Endpoint = Endpoint(
    host: string, port: int, user: string, password: string,
    keyName: string, group: string, transfer: string, proxyJump: string)

  type Connection = Named<Endpoint>

  /** A saved key: its name and its private material. */
  type SSHKey = Named<string>

  datatype Snapshot = Snapshot(connections: seq<Connection>, keys: seq<SSHKey>)

  datatype PendingMutation = PendingMutation(
    id: string, alias: string, keyName: string, operation: string,
    before: Option<Connection>, after: Option<Connection>,
    keysBefore: seq<SSHKey>, keysAfter: seq<SSHKey>,
    bulkBefore: Option<Snapshot>, bulkAfter: Option<Snapshot>)

  /** An inventory compared by name: order in the slices does not matter. */
  datatype Inv = Inv(conns: map<string, Endpoint>, keys: map<string, string>)

  function Get<V>(m: map<string, V>, name: string): Option<V> {
    if name in m then Some(m[name]) else None
  }

  /** The first record of that name, as the linear searches of the source find it. */
  function Lookup<V>(s: seq<Named<V>>, name: string): Option<V> {
    if s == [] then None
    else if s[0].name == name then Some(s[0].value)
    else Lookup(s[1..], name)
  }

  /** The table a loop over the slice builds: a later record overrides an earlier one. */
  function Index<V>(s: seq<Named<V>>): map<string, V> {
    if s == [] then map[]
    else Index(s[..|s| - 1])[s[|s| - 1].name := s[|s| - 1].value]
  }

  ghost predicate Unique<V>(s: seq<Named<V>>) {
    forall i, j :: 0 <= i < j < |s| ==> s[i].name != s[j].name
  }

  ghost predicate UniqueSnapshot(s: Snapshot) {
    Unique(s.connections) && Unique(s.keys)
  }

  function View(s: Snapshot): Inv {
    Inv(Index(s.connections), Index(s.keys))
  }

  // ----- slices and their tables

  /** Every entry of the table stands for a record. */
  lemma {:induction false} IndexHolder<V>(s: seq<Named<V>>, n: string) returns (i: nat)
    requires n in Index(s)
    ensures i < |s| && s[i].name == n && s[i].value == Index(s)[n]
  {
    i := |s| - 1;
    if s[i].name != n {
      i := IndexHolder(s[..|s| - 1], n);
    }
  }

  lemma {:induction false} IndexHas<V>(s: seq<Named<V>>, i: nat)
    requires i < |s|
    ensures s[i].name in Index(s)
  {
    if i < |s| - 1 {
      assert s[..|s| - 1][i] == s[i];
      IndexHas(s[..|s| - 1], i);
    }
  }

  lemma IndexMembers<V>(s: seq<Named<V>>)
    ensures forall n :: n in Index(s) <==> exists i :: 0 <= i < |s| && s[i].name == n
    ensures forall n :: n in Index(s) ==> exists i :: 0 <= i < |s| && s[i] == Named(n, Index(s)[n])
  {
    forall n | n in Index(s) ensures exists i :: 0 <= i < |s| && s[i] == Named(n, Index(s)[n]) {
      var i := IndexHolder(s, n);
      assert s[i] == Named(n, Index(s)[n]);
    }
    forall i | 0 <= i < |s| ensures s[i].name in Index(s) {
      IndexHas(s, i);
    }
  }

  /** Without duplicate names the table holds every record of the slice. */
  lemma IndexUnique<V>(s: seq<Named<V>>)
    requires Unique(s)
    ensures forall i :: 0 <= i < |s| ==> s[i].name in Index(s) && Index(s)[s[i].name] == s[i].value
  {
    forall i | 0 <= i < |s|
      ensures s[i].name in Index(s) && Index(s)[s[i].name] == s[i].value
    {
      IndexHas(s, i);
      var j := IndexHolder(s, s[i].name);
    }
  }

  lemma {:induction false} LookupMembers<V>(s: seq<Named<V>>, name: string)
    ensures Lookup(s, name).None? ==> forall i :: 0 <= i < |s| ==> s[i].name != name
    ensures Lookup(s, name).Some? ==> exists i :: 0 <= i < |s| && s[i] == Named(name, Lookup(s, name).value)
  {
    if s == [] {
    } else if s[0].name == name {
      assert s[0] == Named(name, Lookup(s, name).value);
    } else {
      LookupMembers(s[1..], name);
      if Lookup(s, name).Some? {
        var i :| 0 <= i < |s| - 1 && s[1..][i] == Named(name, Lookup(s, name).value);
        assert s[i + 1] == Named(name, Lookup(s, name).value);
      } else {
        forall i | 0 <= i < |s| ensures s[i].name != name {
          if i > 0 { assert s[1..][i - 1] == s[i]; }
        }
      }
    }
  }

  /** The two readings of a slice agree when no name occurs twice. */
  lemma IndexIsLookup<V>(s: seq<Named<V>>, name: string)
    requires Unique(s)
    ensures Get(Index(s), name) == Lookup(s, name)
  {
    IndexUnique(s);
    IndexMembers(s);
    LookupMembers(s, name);
  }

  /** A slice without duplicates is determined, up to order, by its table. */
  lemma IndexDetermined<V>(s: seq<Named<V>>, table: map<string, V>)
    requires Unique(s)
    requires forall i :: 0 <= i < |s| ==> Get(table, s[i].name) == Some(s[i].value)
    requires forall n :: n in table ==> exists i :: 0 <= i < |s| && s[i].name == n
    ensures Index(s) == table
  {
    forall n | n in Index(s) ensures n in table && table[n] == Index(s)[n] {
      var i := IndexHolder(s, n);
      assert Get(table, s[i].name) == Some(s[i].value);
    }
    forall n | n in table ensures n in Index(s) {
      var i :| 0 <= i < |s| && s[i].name == n;
      IndexHas(s, i);
    }
  }
}
