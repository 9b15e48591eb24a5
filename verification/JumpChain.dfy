/** Following redirects to a connection and proxy_jump links to a dial order. */
module JumpChains {
  import opened Inventory
  import opened Text

  const MAX_REDIRECTS := 16
  const MAX_JUMP_DEPTH := 5

  // ----- redirects

  type Redirects = map<string, string>

  function Hop(r: Redirects, name: string): Option<string> {
    if name in r && r[name] != "" && r[name] != name then Some(r[name]) else None
  }

  /** The alias after `k` soft links. */
  function Trail(r: Redirects, name: string, k: nat): string {
    if k == 0 then name
    else
      var before := Trail(r, name, k - 1);
      if Hop(r, before).Some? then Hop(r, before).value else before
  }

  /** The first `n` aliases of the trail are all different. */
  ghost predicate Apart(r: Redirects, name: string, n: nat) {
    forall i, j :: 0 <= i < j < n ==> Trail(r, name, i) != Trail(r, name, j)
  }

  lemma ApartOneMore(r: Redirects, name: string, n: nat)
    requires Apart(r, name, n) && forall i :: 0 <= i < n ==> Trail(r, name, i) != Trail(r, name, n)
    ensures Apart(r, name, n + 1)
  {
  }

  /** Exactly `k` links are followed: up to an alias without one or to the limit, none of the aliases
      that were looked up coming twice. */
  ghost predicate Lands(r: Redirects, requested: string, k: nat) {
    && k <= MAX_REDIRECTS
    && (forall i :: 0 <= i < k ==> Hop(r, Trail(r, requested, i)).Some?)
    && (k < MAX_REDIRECTS ==> Hop(r, Trail(r, requested, k)).None?)
    && Apart(r, requested, if k < MAX_REDIRECTS then k + 1 else k)
  }

  ghost predicate StandsAt(conns: seq<Connection>, requested: string, name: string, conn: Connection) {
    (Lookup(conns, name).Some? && conn == Named(name, Lookup(conns, name).value))
    || (Lookup(conns, name).None? && Lookup(conns, requested).Some?
        && conn == Named(requested, Lookup(conns, requested).value))
  }

  /** The connection an alias stands for: where its links land, else the alias itself. */
  ghost predicate Stands(conns: seq<Connection>, r: Redirects, requested: string, conn: Connection) {
    requested != "" && exists k: nat :: Lands(r, requested, k) && StandsAt(conns, requested, Trail(r, requested, k), conn)
  }

  lemma LandsOnce(r: Redirects, requested: string, j: nat, k: nat)
    requires Lands(r, requested, j) && Lands(r, requested, k)
    ensures j == k
  {
  }

  lemma StandsForOne(conns: seq<Connection>, r: Redirects, requested: string, a: Connection, b: Connection)
    requires Stands(conns, r, requested, a) && Stands(conns, r, requested, b)
    ensures a == b
  {
    var j: nat :| Lands(r, requested, j) && StandsAt(conns, requested, Trail(r, requested, j), a);
    var k: nat :| Lands(r, requested, k) && StandsAt(conns, requested, Trail(r, requested, k), b);
    LandsOnce(r, requested, j, k);
  }

  /** An alias without a redirect stands for the connection of that name. */
  lemma NoRedirect(conns: seq<Connection>, r: Redirects, alias: string, c: Connection)
    requires alias !in r
    ensures Stands(conns, r, alias, c) <==> alias != "" && c.name == alias && Lookup(conns, alias) == Some(c.value)
  {
    assert Trail(r, alias, 0) == alias;
    assert Lands(r, alias, 0);
    forall k: nat | Lands(r, alias, k) ensures k == 0 {
      LandsOnce(r, alias, 0, k);
    }
  }

  /** A redirect leads to the connection it names, and back to its own alias if there is none. */
  lemma OneRedirect(conns: seq<Connection>, r: Redirects, alias: string, c: Connection)
    requires alias != "" && alias in r && r[alias] !in {alias, ""} && r[alias] !in r
    ensures Stands(conns, r, alias, c) <==>
      if Lookup(conns, r[alias]).Some? then c.name == r[alias] && Lookup(conns, r[alias]) == Some(c.value)
      else c.name == alias && Lookup(conns, alias) == Some(c.value)
  {
    assert Trail(r, alias, 0) == alias;
    assert Trail(r, alias, 1) == r[alias];
    assert Lands(r, alias, 1);
    forall k: nat | Lands(r, alias, k) ensures k == 1 {
      LandsOnce(r, alias, 1, k);
    }
  }

  /** Redirects that lead back stand for nothing. */
  lemma RedirectsLeadBack(conns: seq<Connection>, r: Redirects, alias: string, c: Connection)
    requires alias in r && r[alias] in r && r[r[alias]] == alias && alias != r[alias] && "" !in {alias, r[alias]}
    ensures !Stands(conns, r, alias, c)
  {
    forall k: nat ensures !Lands(r, alias, k) {
      assert Trail(r, alias, 0) == alias;
      assert Trail(r, alias, 1) == r[alias];
      assert Trail(r, alias, 2) == alias;
    }
  }

  /** The aliases before the `i`-th. */
  ghost function Behind(r: Redirects, requested: string, i: nat): set<string> {
    if i == 0 then {} else Behind(r, requested, i - 1) + {Trail(r, requested, i - 1)}
  }

  lemma {:induction false} BehindHas(r: Redirects, requested: string, i: nat, j: nat)
    requires j < i
    ensures Trail(r, requested, j) in Behind(r, requested, i)
  {
    if j < i - 1 { BehindHas(r, requested, i - 1, j); }
  }

  lemma {:induction false} BehindIs(r: Redirects, requested: string, i: nat, s: string) returns (j: nat)
    requires s in Behind(r, requested, i)
    ensures j < i && Trail(r, requested, j) == s
  {
    j := i - 1;
    if Trail(r, requested, j) != s { j := BehindIs(r, requested, i - 1, s); }
  }

  /** The first `i` aliases are all different and all have a link. */
  ghost predicate Walked(r: Redirects, requested: string, i: nat) {
    Apart(r, requested, i) && forall j :: 0 <= j < i ==> Hop(r, Trail(r, requested, j)).Some?
  }

  lemma ApartFromBehind(r: Redirects, requested: string, i: nat)
    requires Apart(r, requested, i) && Trail(r, requested, i) !in Behind(r, requested, i)
    ensures Apart(r, requested, i + 1)
  {
    forall j | 0 <= j < i ensures Trail(r, requested, j) != Trail(r, requested, i) {
      BehindHas(r, requested, i, j);
    }
    ApartOneMore(r, requested, i);
  }

  /** An alias that comes back with fewer links than the limit: nothing is landed on. */
  lemma CircleLandsNowhere(r: Redirects, requested: string, i: nat, k: nat)
    requires Walked(r, requested, i) && Trail(r, requested, i) in Behind(r, requested, i) && i < MAX_REDIRECTS
    ensures !Lands(r, requested, k)
  {
    var j := BehindIs(r, requested, i, Trail(r, requested, i));
    if k < i {
      assert Hop(r, Trail(r, requested, k)).Some?;
    }
  }

  /** The lookups after the links have been followed. */
  lemma StandsAfter(conns: seq<Connection>, r: Redirects, requested: string, i: nat, c: Connection)
    requires requested != "" && Lands(r, requested, i)
    ensures Stands(conns, r, requested, c) <==> StandsAt(conns, requested, Trail(r, requested, i), c)
  {
    forall k: nat | Lands(r, requested, k) ensures k == i {
      LandsOnce(r, requested, i, k);
    }
  }

  method ResolveAlias(conns: seq<Connection>, r: Redirects, requested: string)
    returns (conn: Option<Connection>)
    ensures conn.Some? ==> Stands(conns, r, requested, conn.value)
    ensures conn.None? ==> forall c :: !Stands(conns, r, requested, c)
  {
    if requested == "" {
      return None;
    }
    var name := requested;
    var seen: set<string> := {};
    var i := 0;
    while i < MAX_REDIRECTS
      invariant 0 <= i <= MAX_REDIRECTS && name == Trail(r, requested, i) && Walked(r, requested, i)
      invariant seen == Behind(r, requested, i)
    {
      if name in seen {
        forall k: nat ensures !Lands(r, requested, k) {
          CircleLandsNowhere(r, requested, i, k);
        }
        return None;
      }
      ApartFromBehind(r, requested, i);
      if Hop(r, name).None? {
        break;
      }
      seen := seen + {name};
      name := r[name];
      i := i + 1;
    }
    assert Lands(r, requested, i);
    forall c ensures Stands(conns, r, requested, c) <==> StandsAt(conns, requested, name, c) {
      StandsAfter(conns, r, requested, i, c);
    }
    if Lookup(conns, name).Some? {
      return Some(Named(name, Lookup(conns, name).value));
    }
    if name != requested && Lookup(conns, requested).Some? {
      return Some(Named(requested, Lookup(conns, requested).value));
    }
    return None;
  }

  // ----- jump chains

  function Next(c: Connection): string {
    TrimSpace(c.value.proxyJump)
  }

  /** A dial order from some host to the target: everybody's link leads to the host dialled before. */
  ghost predicate Links(conns: seq<Connection>, r: Redirects, target: Connection, chain: seq<Connection>) {
    && 1 <= |chain| <= MAX_JUMP_DEPTH + 1 && chain[|chain| - 1] == target
    && (forall i :: 1 <= i < |chain| ==> Next(chain[i]) != "" && Stands(conns, r, Next(chain[i]), chain[i - 1]))
    && (forall i, j :: 0 <= i < j < |chain| ==> chain[i].name != chain[j].name)
  }

  /** A complete one starts at a host that needs no jump. */
  ghost predicate DialOrder(conns: seq<Connection>, r: Redirects, target: Connection, chain: seq<Connection>) {
    Links(conns, r, target, chain) && Next(chain[0]) == ""
  }

  lemma {:induction false} SameLinks(conns: seq<Connection>, r: Redirects, target: Connection, a: seq<Connection>,
                                     b: seq<Connection>, k: nat)
    requires Links(conns, r, target, a) && Links(conns, r, target, b) && 1 <= k <= |a| && k <= |b|
    ensures a[|a| - k] == b[|b| - k]
  {
    if k > 1 {
      SameLinks(conns, r, target, a, b, k - 1);
      StandsForOne(conns, r, Next(a[|a| - k + 1]), a[|a| - k], b[|b| - k]);
    }
  }

  /** A target has at most one dial order. */
  lemma DialOrderIsUnique(conns: seq<Connection>, r: Redirects, target: Connection, a: seq<Connection>, b: seq<Connection>)
    requires DialOrder(conns, r, target, a) && DialOrder(conns, r, target, b)
    ensures a == b
  {
    SameLinks(conns, r, target, a, b, if |a| < |b| then |a| else |b|);
    forall i | 0 <= i < |a| && |a| == |b| ensures a[i] == b[i] {
      SameLinks(conns, r, target, a, b, |a| - i);
    }
  }

  /** The host's own setting names the connection dialled before it. */
  predicate JumpsTo(conns: seq<Connection>, host: Connection, before: Connection) {
    var jump := TrimSpace(host.value.proxyJump);
    jump != "" && before.name == jump && Lookup(conns, jump) == Some(before.value)
  }

  /** Without redirects: at most six hosts, the target last, each but the first naming the one before it. */
  lemma PlainDialOrder(conns: seq<Connection>, target: Connection, chain: seq<Connection>)
    ensures DialOrder(conns, map[], target, chain) <==>
      && 1 <= |chain| <= 6 && chain[|chain| - 1] == target && TrimSpace(chain[0].value.proxyJump) == ""
      && (forall i :: 1 <= i < |chain| ==> JumpsTo(conns, chain[i], chain[i - 1]))
      && forall i, j :: 0 <= i < j < |chain| ==> chain[i].name != chain[j].name
  {
    if DialOrder(conns, map[], target, chain) {
      forall i | 1 <= i < |chain| ensures JumpsTo(conns, chain[i], chain[i - 1]) {
        NoRedirect(conns, map[], Next(chain[i]), chain[i - 1]);
      }
    }
    if |chain| > 0 && forall i :: 1 <= i < |chain| ==> JumpsTo(conns, chain[i], chain[i - 1]) {
      forall i | 1 <= i < |chain| ensures Next(chain[i]) != "" && Stands(conns, map[], Next(chain[i]), chain[i - 1]) {
        assert JumpsTo(conns, chain[i], chain[i - 1]);
        NoRedirect(conns, map[], Next(chain[i]), chain[i - 1]);
      }
    }
  }

  datatype Reason = Cycle | Depth | Missing

  datatype Resolution =
    | Chain(order: seq<Connection>)
    | Failed(reason: Reason, alias: string, names: seq<string>)

  ghost predicate LeadsBack(conns: seq<Connection>, r: Redirects, chain: seq<Connection>)
    requires chain != []
  {
    exists i, c :: 0 <= i < |chain| && Stands(conns, r, Next(chain[0]), c) && c.name == chain[i].name
  }

  /** The aliases of an error message: the chain as it was followed, from the target on. */
  ghost predicate NamesAlong(names: seq<string>, chain: seq<Connection>) {
    |names| >= |chain| && forall i :: 0 <= i < |chain| ==> names[i] == chain[|chain| - 1 - i].name
  }

  /** The links of a chain that cannot be continued, and why. */
  ghost predicate StuckAt(conns: seq<Connection>, r: Redirects, target: Connection, chain: seq<Connection>, reason: Reason) {
    && Links(conns, r, target, chain) && Next(chain[0]) != ""
    && match reason
       case Depth => |chain| == MAX_JUMP_DEPTH + 1
       case Missing => |chain| <= MAX_JUMP_DEPTH && forall c :: !Stands(conns, r, Next(chain[0]), c)
       case Cycle => |chain| <= MAX_JUMP_DEPTH && LeadsBack(conns, r, chain)
  }

  /** The alias a failure names: the one that leads back, else the one that could not be followed. */
  ghost predicate StopsWith(conns: seq<Connection>, r: Redirects, chain: seq<Connection>, reason: Reason, alias: string)
    requires chain != []
  {
    if reason == Cycle then
      && (exists c :: Stands(conns, r, Next(chain[0]), c) && c.name == alias)
      && (exists i :: 0 <= i < |chain| && chain[i].name == alias)
    else alias == Next(chain[0])
  }

  /** A chain that is stuck is part of every other one, so no dial order exists. */
  lemma StuckIsFinal(conns: seq<Connection>, r: Redirects, target: Connection, chain: seq<Connection>, reason: Reason,
                     order: seq<Connection>)
    requires StuckAt(conns, r, target, chain, reason)
    ensures !DialOrder(conns, r, target, order)
  {
    if DialOrder(conns, r, target, order) {
      var k := if |chain| < |order| then |chain| else |order|;
      SameLinks(conns, r, target, chain, order, k);
      if |chain| < |order| {
        var j := |order| - |chain|;
        assert Stands(conns, r, Next(chain[0]), order[j - 1]);
        if reason == Cycle {
          var i, c :| 0 <= i < |chain| && Stands(conns, r, Next(chain[0]), c) && c.name == chain[i].name;
          StandsForOne(conns, r, Next(chain[0]), c, order[j - 1]);
          SameLinks(conns, r, target, chain, order, |chain| - i);
        }
      }
      assert false;
    }
  }

  lemma LinksOneMore(conns: seq<Connection>, r: Redirects, target: Connection, chain: seq<Connection>, conn: Connection)
    requires Links(conns, r, target, chain) && |chain| <= MAX_JUMP_DEPTH && Next(chain[0]) != ""
    requires Stands(conns, r, Next(chain[0]), conn)
    requires forall i :: 0 <= i < |chain| ==> chain[i].name != conn.name
    ensures Links(conns, r, target, [conn] + chain)
  {
    var longer := [conn] + chain;
    forall i | 1 <= i < |longer| ensures Next(longer[i]) != "" && Stands(conns, r, Next(longer[i]), longer[i - 1]) {
      assert longer[i] == chain[i - 1];
      assert i > 1 ==> longer[i - 1] == chain[i - 2];
    }
  }

  ghost predicate SeenAlong(seen: set<string>, chain: seq<Connection>) {
    (forall i :: 0 <= i < |chain| ==> chain[i].name in seen)
    && (forall n :: n in seen ==> exists i :: 0 <= i < |chain| && chain[i].name == n)
  }

  lemma AlongOneMore(seen: set<string>, names: seq<string>, chain: seq<Connection>, conn: Connection)
    requires |names| == |chain| && NamesAlong(names, chain) && SeenAlong(seen, chain)
    ensures NamesAlong(names + [conn.name], [conn] + chain) && SeenAlong(seen + {conn.name}, [conn] + chain)
  {
    var longer := [conn] + chain;
    assert longer[0] == conn;
    forall n | n in seen ensures exists i :: 0 <= i < |longer| && longer[i].name == n {
      var i :| 0 <= i < |chain| && chain[i].name == n;
      assert longer[i + 1] == chain[i];
    }
  }

  /** The result of giving up is final and says how far the links went. */
  lemma GiveUp(conns: seq<Connection>, r: Redirects, target: Connection, chain: seq<Connection>, reason: Reason,
               names: seq<string>, alias: string)
    requires StuckAt(conns, r, target, chain, reason) && NamesAlong(names, chain) && |names| == |chain|
    requires StopsWith(conns, r, chain, reason, alias)
    ensures Explained(conns, r, target, Failed(reason, alias, names + [alias]))
  {
    forall order ensures !DialOrder(conns, r, target, order) {
      StuckIsFinal(conns, r, target, chain, reason, order);
    }
    assert NamesAlong(names + [alias], chain);
  }

  ghost predicate Explained(conns: seq<Connection>, r: Redirects, target: Connection, result: Resolution) {
    result.Failed? ==>
      && (forall order :: !DialOrder(conns, r, target, order))
      && (exists chain :: StuckAt(conns, r, target, chain, result.reason) && NamesAlong(result.names, chain)
            && |result.names| == |chain| + 1 && StopsWith(conns, r, chain, result.reason, result.alias))
      && result.names != [] && result.names[|result.names| - 1] == result.alias
  }

  /** The state at the top of the loop. */
  ghost predicate Following(conns: seq<Connection>, r: Redirects, target: Connection, chain: seq<Connection>,
                            seen: set<string>, names: seq<string>, next: string) {
    && Links(conns, r, target, chain) && next == Next(chain[0])
    && |names| == |chain| && NamesAlong(names, chain) && SeenAlong(seen, chain)
  }

  lemma FollowingOneMore(conns: seq<Connection>, r: Redirects, target: Connection, chain: seq<Connection>,
                         seen: set<string>, names: seq<string>, next: string, conn: Connection)
    requires Following(conns, r, target, chain, seen, names, next) && |chain| <= MAX_JUMP_DEPTH && next != ""
    requires Stands(conns, r, next, conn) && conn.name !in seen
    ensures Following(conns, r, target, [conn] + chain, seen + {conn.name}, names + [conn.name], Next(conn))
  {
    LinksOneMore(conns, r, target, chain, conn);
    AlongOneMore(seen, names, chain, conn);
  }

  lemma BackToSeen(conns: seq<Connection>, r: Redirects, target: Connection, chain: seq<Connection>,
                   seen: set<string>, names: seq<string>, next: string, conn: Connection)
    requires Following(conns, r, target, chain, seen, names, next)
    requires Stands(conns, r, next, conn) && conn.name in seen
    ensures LeadsBack(conns, r, chain) && StopsWith(conns, r, chain, Cycle, conn.name)
  {
  }

  /** The hosts to dial in order, exactly when there is a dial order. */
  method ResolveJumpChain(conns: seq<Connection>, r: Redirects, target: Connection) returns (result: Resolution)
    ensures result.Chain? ==> DialOrder(conns, r, target, result.order)
    ensures Explained(conns, r, target, result)
  {
    var seen: set<string> := {target.name};
    var names := [target.name];
    var jumps: seq<Connection> := [];
    var next := Next(target);
    ghost var chain := [target];
    while next != ""
      invariant chain == jumps + [target] && Following(conns, r, target, chain, seen, names, next)
      decreases MAX_JUMP_DEPTH - |jumps|
    {
      if |jumps| >= MAX_JUMP_DEPTH {
        GiveUp(conns, r, target, chain, Depth, names, next);
        return Failed(Depth, next, names + [next]);
      }
      var found := ResolveAlias(conns, r, next);
      if found.None? {
        GiveUp(conns, r, target, chain, Missing, names, next);
        return Failed(Missing, next, names + [next]);
      }
      var conn := found.value;
      if conn.name in seen {
        BackToSeen(conns, r, target, chain, seen, names, next, conn);
        GiveUp(conns, r, target, chain, Cycle, names, conn.name);
        return Failed(Cycle, conn.name, names + [conn.name]);
      }
      FollowingOneMore(conns, r, target, chain, seen, names, next, conn);
      seen := seen + {conn.name};
      names := names + [conn.name];
      chain := [conn] + chain;
      assert chain == [conn] + jumps + [target];
      jumps := [conn] + jumps;
      next := Next(conn);
    }
    return Chain(jumps + [target]);
  }
}
