/** Why a pending mutation may not be published alone: direct edges, the
    complete prerequisite list, and the preflight that reports it.
 */
module Dependencies {
  import opened Sequences
  import opened Inventory
  import opened Ledger
  import opened Ordering

  datatype DependencyEdge = DependencyEdge(index: nat, keyName: string, reason: string)

  datatype Dependency = Dependency(id: string, alias: string, operation: string, keyName: string, bulk: bool, reason: string)

  function KeyLifecycleReason(m: PendingMutation, keyName: string, change: KeyChange): string {
    match change
    case Create =>
      if m.before.Some? && m.after.Some? && m.before.value.value.keyName != ""
         && m.before.value.value.keyName != keyName && m.after.value.value.keyName == keyName
      then "saved_key_rename" else "saved_key_create"
    case Replace => "saved_key_replace"
    case Delete =>
      if m.before.Some? && m.before.value.value.keyName == keyName && m.after.None?
      then "saved_key_prune" else "saved_key_delete"
    case Unchanged => "saved_key_reference"
  }

  function TieReason(earlier: PendingMutation, n: string): string {
    if Touches(earlier, n) then KeyLifecycleReason(earlier, n, KeyChangeOf(earlier, n)) else "saved_key_reference"
  }

  ghost predicate NoTieBelow(earlier: PendingMutation, selected: PendingMutation, n: string) {
    forall k :: Less(k, n) ==> !KeyTies(earlier, selected, k)
  }

  /** The edge names the first rule, in the order the rules are tried, that ties the two. */
  ghost predicate Explains(earlier: PendingMutation, selected: PendingMutation, keyName: string, reason: string) {
    if IsBulk(selected) || IsBulk(earlier) then keyName == "" && reason == "inventory_order"
    else if earlier.alias != "" && earlier.alias == selected.alias then keyName == "" && reason == "alias_order"
    else if exists n :: KeyTies(earlier, selected, n) then
      KeyTies(earlier, selected, keyName) && NoTieBelow(earlier, selected, keyName) && reason == TieReason(earlier, keyName)
    else
      && ReferenceTies(earlier, selected) && keyName == selected.after.value.value.keyName
      && reason == KeyLifecycleReason(earlier, keyName, KeyChangeOf(earlier, keyName))
  }

  /** What a reason tells of the earlier mutation, the key it is given for, and the rule. */
  lemma ReasonExactly(earlier: PendingMutation, selected: PendingMutation, keyName: string, reason: string)
    requires Explains(earlier, selected, keyName, reason)
    ensures reason == "inventory_order" <==> earlier.bulkAfter.Some? || selected.bulkAfter.Some?
    ensures reason == "alias_order" ==> earlier.alias == selected.alias != ""
    ensures var was, now := Lookup(earlier.keysBefore, keyName), Lookup(earlier.keysAfter, keyName);
      && (reason in {"saved_key_create", "saved_key_rename"} ==> was.None? && now.Some?)
      && (reason == "saved_key_replace" ==> was.Some? && now.Some? && was != now)
      && (reason in {"saved_key_delete", "saved_key_prune"} ==> was.Some? && now.None?)
      && (reason == "saved_key_reference" ==> was == now && ReferenceRemoved(earlier, keyName))
    ensures var uses := earlier.after.Some? && earlier.after.value.value.keyName == keyName;
      var used := earlier.before.Some? && earlier.before.value.value.keyName == keyName;
      && (reason == "saved_key_rename" ==> uses && earlier.before.Some? && !used)
      && (reason == "saved_key_prune" ==> used && earlier.after.None?)
      && (reason == "saved_key_delete" ==> !(used && earlier.after.None?))
    ensures reason in {"inventory_order", "alias_order", "saved_key_create", "saved_key_rename", "saved_key_replace",
                       "saved_key_delete", "saved_key_prune", "saved_key_reference"}
  {
  }

  /** The names whose key differs between the two slices, sorted. */
  method ChangedKeyNames(before: seq<SSHKey>, after: seq<SSHKey>) returns (changed: seq<string>)
    ensures SortedNames(changed)
    ensures forall n :: n in changed <==> ChangeBetween(Lookup(before, n), Lookup(after, n)) != Unchanged
  {
    var names: set<string> := {};
    for i := 0 to |before|
      invariant forall n :: n in names <==> exists k :: 0 <= k < i && before[k].name == n
    {
      names := names + {before[i].name};
    }
    ghost var first := names;
    for i := 0 to |after|
      invariant forall n :: n in names <==> n in first || exists k :: 0 <= k < i && after[k].name == n
    {
      names := names + {after[i].name};
    }
    forall n | n !in names ensures Lookup(before, n) == None && Lookup(after, n) == None {
      LookupMembers(before, n);
      LookupMembers(after, n);
    }
    changed := SortNames(set n | n in names && ChangeBetween(Lookup(before, n), Lookup(after, n)) != Unchanged);
  }

  method EdgeBetween(earlier: PendingMutation, selected: PendingMutation) returns (edge: Option<(string, string)>)
    ensures edge.Some? <==> DependsOn(earlier, selected)
    ensures edge.Some? ==> Explains(earlier, selected, edge.value.0, edge.value.1)
  {
    if selected.bulkAfter.Some? || earlier.bulkAfter.Some? {
      return Some(("", "inventory_order"));
    }
    if earlier.alias != "" && earlier.alias == selected.alias {
      return Some(("", "alias_order"));
    }
    var names := ChangedKeyNames(selected.keysBefore, selected.keysAfter);
    for i := 0 to |names|
      invariant forall k :: 0 <= k < i ==> !KeyTies(earlier, selected, names[k])
    {
      var keyName := names[i];
      assert Touches(selected, keyName);
      forall k | Less(k, keyName) ensures !KeyTies(earlier, selected, k) {
        if Touches(selected, k) {
          assert k in names;
          var j :| 0 <= j < |names| && names[j] == k;
          LessTotal(k, keyName);
          assert j < i;
        }
      }
      var selectedChange := KeyChangeOf(selected, keyName);
      var earlierChange := KeyChangeOf(earlier, keyName);
      if earlierChange != Unchanged {
        assert KeyTies(earlier, selected, keyName);
        return Some((keyName, KeyLifecycleReason(earlier, keyName, earlierChange)));
      }
      if (selectedChange == Replace || selectedChange == Delete) && ReferenceRemoved(earlier, keyName) {
        assert KeyTies(earlier, selected, keyName);
        return Some((keyName, "saved_key_reference"));
      }
    }
    forall n ensures !KeyTies(earlier, selected, n) {
      if Touches(selected, n) { assert n in names; }
    }
    if selected.after.None? || selected.after.value.value.keyName == "" {
      return None;
    }
    var keyName := selected.after.value.value.keyName;
    var earlierChange := KeyChangeOf(earlier, keyName);
    if earlierChange == Create || earlierChange == Replace {
      return Some((keyName, KeyLifecycleReason(earlier, keyName, earlierChange)));
    }
    return None;
  }

  /** One edge for each earlier mutation that holds the selected one back. */
  ghost predicate EdgesOf(ms: seq<PendingMutation>, selectedIndex: int, required: seq<DependencyEdge>)
    requires 0 <= selectedIndex < |ms|
  {
    && (forall k :: 0 <= k < |required| ==>
          required[k].index < selectedIndex
          && DependsOn(ms[required[k].index], ms[selectedIndex])
          && Explains(ms[required[k].index], ms[selectedIndex], required[k].keyName, required[k].reason))
    && (forall j, k :: 0 <= j < k < |required| ==> required[j].index < required[k].index)
    && (forall i :: 0 <= i < selectedIndex && DependsOn(ms[i], ms[selectedIndex]) ==>
          exists k :: 0 <= k < |required| && required[k].index == i)
  }

  method DirectDependencyEdges(ms: seq<PendingMutation>, selectedIndex: nat) returns (required: seq<DependencyEdge>)
    requires selectedIndex < |ms|
    ensures EdgesOf(ms, selectedIndex, required)
  {
    var selected := ms[selectedIndex];
    required := [];
    for i := 0 to selectedIndex
      invariant forall k :: 0 <= k < |required| ==>
        required[k].index < i
        && DependsOn(ms[required[k].index], selected)
        && Explains(ms[required[k].index], selected, required[k].keyName, required[k].reason)
      invariant forall j, k :: 0 <= j < k < |required| ==> required[j].index < required[k].index
      invariant forall j :: 0 <= j < i && DependsOn(ms[j], selected) ==>
        exists k :: 0 <= k < |required| && required[k].index == j
    {
      var edge := EdgeBetween(ms[i], selected);
      if edge.Some? {
        ghost var before := required;
        required := required + [DependencyEdge(i, edge.value.0, edge.value.1)];
        forall j | 0 <= j < i + 1 && DependsOn(ms[j], selected)
          ensures exists k :: 0 <= k < |required| && required[k].index == j
        {
          if j < i {
            var k :| 0 <= k < |before| && before[k].index == j;
            assert required[k].index == j;
          } else {
            assert required[|before|].index == i;
          }
        }
      }
    }
  }

  // ----- the complete prerequisite set

  /** `i` holds `t` back, directly or through mutations between them. */
  ghost predicate Reaches(ms: seq<PendingMutation>, i: int, t: int)
    requires 0 <= t < |ms|
    decreases t
  {
    && 0 <= i < t
    && (|| DependsOn(ms[i], ms[t])
        || exists k :: i < k < t && DependsOn(ms[k], ms[t]) && Reaches(ms, i, k))
  }

  function DependencyView(m: PendingMutation, edge: DependencyEdge): Dependency {
    Dependency(m.id, m.alias, m.operation, edge.keyName, IsBulk(m), edge.reason)
  }

  /** `t` is to be published, or held back by what is. */
  ghost predicate Needed(ms: seq<PendingMutation>, t: int, root: nat)
    requires root < |ms|
  {
    t == root || Reaches(ms, t, root)
  }

  /** The edge from one mutation to another that is needed. */
  ghost predicate EdgeTo(ms: seq<PendingMutation>, i: nat, root: nat, keyName: string, reason: string, t: int)
    requires root < |ms|
  {
    i < t < |ms| && Needed(ms, t, root) && DependsOn(ms[i], ms[t]) && Explains(ms[i], ms[t], keyName, reason)
  }

  /** The entry for mutation `i`: what it is, and why it comes before something that is needed. */
  ghost predicate Describes(d: Dependency, ms: seq<PendingMutation>, i: nat, root: nat)
    requires i < |ms| && root < |ms|
  {
    && d.id == ms[i].id && d.alias == ms[i].alias && d.operation == ms[i].operation && d.bulk == IsBulk(ms[i])
    && exists t :: EdgeTo(ms, i, root, d.keyName, d.reason, t)
  }

  ghost predicate Viewed(ms: seq<PendingMutation>, required: map<nat, Dependency>, root: nat)
    requires root < |ms|
  {
    forall i :: i in required ==> i < |ms| && Describes(required[i], ms, i, root)
  }

  lemma NeededToo(ms: seq<PendingMutation>, i: nat, t: nat, root: nat)
    requires i < t <= root < |ms| && Needed(ms, t, root) && DependsOn(ms[i], ms[t])
    ensures Needed(ms, i, root)
  {
    if t != root { ReachesTransitive(ms, i, t, root); }
  }

  method Collect(ms: seq<PendingMutation>, edges: seq<seq<DependencyEdge>>, target: nat, seen: map<nat, Dependency>, ghost root: nat)
    returns (required: map<nat, Dependency>)
    requires target < |edges| <= |ms| && root < |ms| && Needed(ms, target, root)
    requires forall t :: 0 <= t < |edges| ==> EdgesOf(ms, t, edges[t])
    requires Viewed(ms, seen, root)
    ensures forall i :: i in required <==> i in seen || Reaches(ms, i, target)
    ensures Viewed(ms, required, root)
    decreases target
  {
    required := seen;
    var here := edges[target];
    for k := 0 to |here|
      invariant Viewed(ms, required, root)
      invariant Gathered(ms, seen, here[..k], required)
    {
      var edge := here[k];
      ghost var before := required;
      NeededToo(ms, edge.index, target, root);
      required := Collect(ms, edges, edge.index, required, root);
      ghost var below := required;
      if edge.index !in required {
        assert EdgeTo(ms, edge.index, root, edge.keyName, edge.reason, target);
        required := required[edge.index := DependencyView(ms[edge.index], edge)];
      }
      GatherOneMore(ms, seen, here, k, before, below, required);
    }
    assert here[..|here|] == here;
    forall i ensures Reaches(ms, i, target) <==> Through(ms, here, i) {
      ReachesThroughEdges(ms, target, here, i);
    }
  }

  /** One of the edges leads to the mutation. */
  ghost predicate Through(ms: seq<PendingMutation>, edges: seq<DependencyEdge>, i: int) {
    exists j :: 0 <= j < |edges| && edges[j].index < |ms| && (i == edges[j].index || Reaches(ms, i, edges[j].index))
  }

  ghost predicate Gathered(ms: seq<PendingMutation>, seen: map<nat, Dependency>, edges: seq<DependencyEdge>,
                           required: map<nat, Dependency>) {
    forall i :: i in required <==> i in seen || Through(ms, edges, i)
  }

  lemma GatherOneMore(ms: seq<PendingMutation>, seen: map<nat, Dependency>, edges: seq<DependencyEdge>, k: nat,
                      before: map<nat, Dependency>, below: map<nat, Dependency>, after: map<nat, Dependency>)
    requires k < |edges| && edges[k].index < |ms| && Gathered(ms, seen, edges[..k], before)
    requires forall i :: i in below <==> i in before || Reaches(ms, i, edges[k].index)
    requires forall i :: i in after <==> i in below || i == edges[k].index
    ensures Gathered(ms, seen, edges[..k + 1], after)
  {
    TakeOneMore(edges, k);
    forall i ensures i in after <==> i in seen || Through(ms, edges[..k + 1], i) {
      ThroughOneMore(ms, edges[..k], edges[k], edges[..k + 1], i);
    }
  }

  lemma ThroughOneMore(ms: seq<PendingMutation>, edges: seq<DependencyEdge>, edge: DependencyEdge, more: seq<DependencyEdge>, i: int)
    requires more == edges + [edge] && edge.index < |ms|
    ensures Through(ms, more, i) <==> Through(ms, edges, i) || i == edge.index || Reaches(ms, i, edge.index)
  {
    assert more[|edges|] == edge && forall j :: 0 <= j < |edges| ==> more[j] == edges[j];
  }

  lemma ReachesThroughEdges(ms: seq<PendingMutation>, t: nat, edges: seq<DependencyEdge>, i: int)
    requires t < |ms| && EdgesOf(ms, t, edges)
    ensures Reaches(ms, i, t) <==> Through(ms, edges, i)
  {
    if Reaches(ms, i, t) && !DependsOn(ms[i], ms[t]) {
      var k :| i < k < t && DependsOn(ms[k], ms[t]) && Reaches(ms, i, k);
      var j :| 0 <= j < |edges| && edges[j].index == k;
    }
  }

  method InsertIndex(s: seq<nat>, n: nat) returns (r: seq<nat>)
    requires Ascending(s) && n !in s
    ensures Ascending(r)
    ensures multiset(r) == multiset(s) + multiset{n}
  {
    var i := 0;
    while i < |s| && s[i] < n
      invariant 0 <= i <= |s|
      invariant forall k :: 0 <= k < i ==> s[k] < n
    {
      i := i + 1;
    }
    r := s[..i] + [n] + s[i..];
    InsertedElements(s, n, i);
    InsertedAscends(s, n, i);
  }

  lemma InsertedAscends(s: seq<nat>, n: nat, i: nat)
    requires Ascending(s) && n !in s && i <= |s|
    requires i > 0 ==> s[i - 1] < n
    requires i < |s| ==> n <= s[i]
    ensures Ascending(Inserted(s, n, i))
  {
    var r := Inserted(s, n, i);
    forall j, k | 0 <= j < k < |r| ensures r[j] < r[k] {
      InsertedAt(s, n, i, j);
      InsertedAt(s, n, i, k);
    }
  }

  /** The keys of a Go map, collected in any order and then sorted. */
  method SortIndexes(s: set<nat>) returns (sorted: seq<nat>)
    ensures Ascending(sorted)
    ensures forall i :: i in sorted <==> i in s
  {
    sorted := [];
    var left := s;
    while left != {}
      invariant left <= s && Ascending(sorted)
      invariant forall i :: i in sorted <==> i in s - left
      decreases left
    {
      var n :| n in left;
      var before := sorted;
      sorted := InsertIndex(sorted, n);
      forall k ensures k in sorted <==> k in before || k == n {
        assert k in sorted <==> k in multiset(sorted);
        assert k in before <==> k in multiset(before);
      }
      left := left - {n};
    }
  }

  ghost predicate Ascending(s: seq<nat>) {
    forall i, j :: 0 <= i < j < |s| ==> s[i] < s[j]
  }

  /** The places, in ledger order, of everything that must be published first. */
  ghost predicate PrerequisitesOf(ms: seq<PendingMutation>, selectedIndex: int, places: seq<nat>)
    requires 0 <= selectedIndex < |ms|
  {
    Ascending(places) && forall i: nat :: i in places <==> Reaches(ms, i, selectedIndex)
  }

  /** The list that is reported: one entry for each place. */
  ghost predicate RequiredList(ms: seq<PendingMutation>, selectedIndex: nat, places: seq<nat>, required: seq<Dependency>)
    requires selectedIndex < |ms|
  {
    && PrerequisitesOf(ms, selectedIndex, places) && |required| == |places|
    && forall k :: 0 <= k < |required| ==> places[k] < |ms| && Describes(required[k], ms, places[k], selectedIndex)
  }

  method DependenciesOf(ms: seq<PendingMutation>, selectedIndex: nat) returns (result: seq<Dependency>, ghost places: seq<nat>)
    requires selectedIndex < |ms|
    ensures RequiredList(ms, selectedIndex, places, result)
    ensures result == [] <==> Accepted(ms, selectedIndex)
  {
    var edges: seq<seq<DependencyEdge>> := [];
    for target := 0 to selectedIndex + 1
      invariant |edges| == target
      invariant forall t :: 0 <= t < target ==> EdgesOf(ms, t, edges[t])
    {
      var direct := DirectDependencyEdges(ms, target);
      edges := edges + [direct];
    }
    var required := Collect(ms, edges, selectedIndex, map[], selectedIndex);
    var indexes := SortIndexes(required.Keys);
    places := indexes;
    result := [];
    for k := 0 to |indexes|
      invariant |result| == k
      invariant forall j :: 0 <= j < k ==> indexes[j] in required && result[j] == required[indexes[j]]
    {
      assert indexes[k] in required;
      result := result + [required[indexes[k]]];
    }
    NoneRequired(ms, selectedIndex, places);
  }

  /** Nothing is required exactly when preflight accepts. */
  lemma NoneRequired(ms: seq<PendingMutation>, selectedIndex: nat, places: seq<nat>)
    requires selectedIndex < |ms| && PrerequisitesOf(ms, selectedIndex, places)
    ensures places == [] <==> Accepted(ms, selectedIndex)
  {
    if !Accepted(ms, selectedIndex) {
      var i: nat :| i < selectedIndex && DependsOn(ms[i], ms[selectedIndex]);
      assert Reaches(ms, i, selectedIndex) && i in places;
    }
    if places != [] {
      assert Reaches(ms, places[0], selectedIndex);
    }
  }

  // ----- preflight

  datatype PreflightResult = Clear | LedgerInvalid | NotPending | Blocked(required: seq<Dependency>)

  function PendingIndex(ms: seq<PendingMutation>, id: string): (index: Option<nat>)
    ensures index.Some? ==> index.value < |ms|
  {
    if ms == [] then None
    else if ms[0].id == id then Some(0)
    else match PendingIndex(ms[1..], id)
         case None => None
         case Some(i) => Some(i + 1)
  }

  ghost predicate UniqueIds(ms: seq<PendingMutation>) {
    forall i, j :: 0 <= i < j < |ms| ==> ms[i].id != ms[j].id
  }

  lemma {:induction false} PendingIndexFinds(ms: seq<PendingMutation>, id: string)
    ensures PendingIndex(ms, id).Some? ==> PendingIndex(ms, id).value < |ms| && ms[PendingIndex(ms, id).value].id == id
    ensures PendingIndex(ms, id).None? ==> forall k :: 0 <= k < |ms| ==> ms[k].id != id
  {
    if ms != [] && ms[0].id != id {
      PendingIndexFinds(ms[1..], id);
      if PendingIndex(ms, id).None? {
        forall k | 0 <= k < |ms| ensures ms[k].id != id {
          if k > 0 { assert ms[k] == ms[1..][k - 1]; }
        }
      }
    }
  }

  /** The ledger checks shared by every inventory operation. */
  ghost predicate ValidLedger(base: Option<Snapshot>, ms: seq<PendingMutation>) {
    && (base.None? <==> ms == [])
    && (forall k :: 0 <= k < |ms| ==> ms[k].id != "")
    && UniqueIds(ms)
  }

  method ValidateLedger(base: Option<Snapshot>, ms: seq<PendingMutation>) returns (ok: bool)
    ensures ok <==> ValidLedger(base, ms)
    ensures ok <==> (base.None? <==> ms == []) && (forall k :: 0 <= k < |ms| ==> ms[k].id != "")
                    && forall i, j :: 0 <= i < j < |ms| ==> ms[i].id != ms[j].id
  {
    if base.None? && |ms| != 0 { return false; }
    if base.Some? && |ms| == 0 { return false; }
    var seen: set<string> := {};
    for i := 0 to |ms|
      invariant forall k :: 0 <= k < i ==> ms[k].id != ""
      invariant forall j, k :: 0 <= j < k < i ==> ms[j].id != ms[k].id
      invariant forall id :: id in seen <==> exists k :: 0 <= k < i && ms[k].id == id
    {
      if ms[i].id == "" || ms[i].id in seen { return false; }
      seen := seen + {ms[i].id};
    }
    return true;
  }

  /** `id` may be published alone: no earlier pending mutation holds it back. */
  ghost predicate Publishable(ms: seq<PendingMutation>, id: string) {
    PendingIndex(ms, id).Some? && Accepted(ms, PendingIndex(ms, id).value)
  }

  /** What preflight says of a valid ledger and one identifier. */
  ghost predicate PreflightOf(ms: seq<PendingMutation>, only: string, result: PreflightResult, places: seq<nat>) {
    match PendingIndex(ms, only)
    case None => result.NotPending?
    case Some(index) =>
      if Accepted(ms, index) then result.Clear?
      else result.Blocked? && result.required != [] && RequiredList(ms, index, places, result.required)
  }

  method Preflight(base: Option<Snapshot>, ms: seq<PendingMutation>, only: string)
    returns (result: PreflightResult, ghost places: seq<nat>)
    ensures result.LedgerInvalid? <==> !ValidLedger(base, ms)
    ensures ValidLedger(base, ms) && only == "" ==> result.Clear?
    ensures ValidLedger(base, ms) && only != "" ==> PreflightOf(ms, only, result, places)
  {
    places := [];
    var valid := ValidateLedger(base, ms);
    if !valid { return LedgerInvalid, []; }
    if only == "" { return Clear, []; }
    var selectedIndex := PendingIndex(ms, only);
    if selectedIndex.None? { return NotPending, []; }
    var required;
    required, places := DependenciesOf(ms, selectedIndex.value);
    result := if |required| > 0 then Blocked(required) else Clear;
  }

  // ----- the prerequisite list suffices

  /** What stays pending keeps the order it had. */
  lemma {:induction false} RemainingOrder(ms: seq<PendingMutation>, ids: set<string>, p: nat, q: nat) returns (i: nat, j: nat)
    requires p < q < |Remaining(ms, ids)|
    ensures i < j < |ms| && ms[i] == Remaining(ms, ids)[p] && ms[j] == Remaining(ms, ids)[q]
    decreases |ms|
  {
    var init, last := ms[..|ms| - 1], ms[|ms| - 1];
    if q < |Remaining(init, ids)| {
      i, j := RemainingOrder(init, ids, p, q);
    } else {
      RemainingMembers(init, ids);
      i :| 0 <= i < |init| && init[i] == Remaining(init, ids)[p];
      j := |ms| - 1;
    }
  }

  lemma {:induction false} RemainingKeeps(ms: seq<PendingMutation>, ids: set<string>, t: nat)
    requires t < |ms| && ms[t].id !in ids
    ensures ms[t] in Remaining(ms, ids)
    decreases |ms|
  {
    if t < |ms| - 1 {
      RemainingKeeps(ms[..|ms| - 1], ids, t);
    }
  }

  /** The identifiers of the first `n` prerequisites. */
  function FirstIds(ms: seq<PendingMutation>, places: seq<nat>, n: nat): set<string>
    requires n <= |places| && forall k :: 0 <= k < |places| ==> places[k] < |ms|
  {
    set k | 0 <= k < n :: ms[places[k]].id
  }

  /** Publishing the listed prerequisites in order and then the selected mutation
      passes preflight at every step: with the first `n` of them gone from the
      ledger, the next one (or, after the last, the selected one) is free. */
  lemma PrerequisitesSuffice(ms: seq<PendingMutation>, selectedIndex: nat, places: seq<nat>, n: nat)
    requires selectedIndex < |ms| && UniqueIds(ms) && PrerequisitesOf(ms, selectedIndex, places)
    requires n <= |places|
    ensures forall k :: 0 <= k < |places| ==> places[k] < selectedIndex
    ensures Publishable(Remaining(ms, FirstIds(ms, places, n)), ms[if n < |places| then places[n] else selectedIndex].id)
  {
    forall k | 0 <= k < |places| ensures places[k] < selectedIndex {
      assert Reaches(ms, places[k], selectedIndex);
    }
    var done := FirstIds(ms, places, n);
    var t := if n < |places| then places[n] else selectedIndex;
    var left := Remaining(ms, done);
    forall k | 0 <= k < n ensures ms[places[k]].id != ms[t].id {
      assert places[k] < t;
    }
    RemainingKeeps(ms, done, t);
    PendingIndexFinds(left, ms[t].id);
    RemainingMembers(ms, done);
    var q := PendingIndex(left, ms[t].id).value;
    forall p | 0 <= p < q ensures !DependsOn(left[p], left[q]) {
      var i, j := RemainingOrder(ms, done, p, q);
      assert j == t;
      if DependsOn(ms[i], ms[t]) {
        AlreadyDone(ms, selectedIndex, places, n, i);
        assert false;
      }
    }
  }

  lemma AlreadyDone(ms: seq<PendingMutation>, selectedIndex: nat, places: seq<nat>, n: nat, i: nat)
    requires selectedIndex < |ms| && PrerequisitesOf(ms, selectedIndex, places) && n <= |places|
    requires forall k :: 0 <= k < |places| ==> places[k] < selectedIndex
    requires var t := if n < |places| then places[n] else selectedIndex; i < t && DependsOn(ms[i], ms[t])
    ensures ms[i].id in FirstIds(ms, places, n)
  {
    var t := if n < |places| then places[n] else selectedIndex;
    PrerequisiteOfPrerequisite(ms, selectedIndex, t, i);
    assert i in places;
    var k :| 0 <= k < |places| && places[k] == i;
    assert k < n;
  }

  lemma PrerequisiteOfPrerequisite(ms: seq<PendingMutation>, selectedIndex: nat, t: nat, i: nat)
    requires selectedIndex < |ms| && i < t < |ms|
    requires t == selectedIndex || Reaches(ms, t, selectedIndex)
    requires DependsOn(ms[i], ms[t])
    ensures Reaches(ms, i, selectedIndex)
  {
    assert Reaches(ms, i, t);
    if t != selectedIndex {
      ReachesTransitive(ms, i, t, selectedIndex);
    }
  }

  lemma {:induction false} ReachesTransitive(ms: seq<PendingMutation>, i: nat, t: nat, u: nat)
    requires i < t < u < |ms| && Reaches(ms, i, t) && Reaches(ms, t, u)
    ensures Reaches(ms, i, u)
    decreases u
  {
    if !DependsOn(ms[t], ms[u]) {
      var k :| t < k < u && DependsOn(ms[k], ms[u]) && Reaches(ms, t, k);
      ReachesTransitive(ms, i, t, k);
    }
  }
}
