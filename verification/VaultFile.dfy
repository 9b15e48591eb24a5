/** The vault file and its writers: a mutator loads without a lock and later
    locks, compares identities and saves; a finalizer loads and saves under the
    lock; creation writes only where no file is.

    A file's content is its own identity; `None` stands for an absent file.
 */
module VaultFile {
  import opened Inventory

  type Content = nat
  type ProcessId = nat

  /** What a process is doing with the vault file. `basis` is the content its
      in-memory vault was decoded from. */
  datatype Phase =
    | Resting
    | Mutating(basis: Option<Content>)
    | MutatorLocked(basis: Option<Content>)
    | MutatorCleared(basis: Option<Content>)
    | FinalizerLocked
    | FinalizerLoaded(basis: Option<Content>)
    | CreatorLocked
    | CreatorCleared

  /** `loaded` is the identity the process most recently loaded or saved, if any. */
  datatype Process = Process(loaded: Option<Option<Content>>, phase: Phase)

  datatype Commit = Commit(author: ProcessId, basis: Option<Content>, replaced: Option<Content>, next: Content)

  datatype Disk = Disk(file: Option<Content>, lock: Option<ProcessId>, processes: map<ProcessId, Process>, log: seq<Commit>)

  datatype Event =
    | LoadToMutate(p: ProcessId)
    | LoadAgain(p: ProcessId)
    | LockMutator(p: ProcessId)
    | Compare(p: ProcessId)
    | SaveMutator(p: ProcessId, next: Content)
    | LockFinalizer(p: ProcessId)
    | LoadFinalizer(p: ProcessId)
    | SaveFinalizer(p: ProcessId, next: Content)
    | LockCreator(p: ProcessId)
    | CheckAbsent(p: ProcessId)
    | SaveCreator(p: ProcessId, next: Content)
    | Release(p: ProcessId)
    | Crash(p: ProcessId)

  predicate HoldsLock(phase: Phase) {
    phase.MutatorLocked? || phase.MutatorCleared? || phase.FinalizerLocked? || phase.FinalizerLoaded? || phase.CreatorLocked? || phase.CreatorCleared?
  }

  function PhaseOf(d: Disk, p: ProcessId): Phase {
    if p in d.processes then d.processes[p].phase else Resting
  }

  function LoadedBy(d: Disk, p: ProcessId): Option<Option<Content>> {
    if p in d.processes then d.processes[p].loaded else None
  }

  function SetPhase(d: Disk, p: ProcessId, phase: Phase): Disk {
    d.(processes := d.processes[p := Process(LoadedBy(d, p), phase)])
  }

  function Loaded(d: Disk, p: ProcessId, phase: Phase): Disk {
    d.(processes := d.processes[p := Process(Some(d.file), phase)])
  }

  /** The atomic replacement of the file, which also notes the new identity. */
  function Saved(d: Disk, p: ProcessId, basis: Option<Content>, next: Content): Disk {
    d.(file := Some(next), lock := None, processes := d.processes[p := Process(Some(Some(next)), Resting)],
       log := d.log + [Commit(p, basis, d.file, next)])
  }

  function Unlocked(d: Disk, p: ProcessId): Disk {
    SetPhase(d, p, Resting).(lock := None)
  }

  predicate Enabled(d: Disk, e: Event) {
    var phase := PhaseOf(d, e.p);
    match e
    case LoadToMutate(_) => phase.Resting?
    case LoadAgain(_) => phase.Mutating?
    case LockMutator(_) => phase.Mutating? && d.lock.None?
    case Compare(_) => phase.MutatorLocked?
    case SaveMutator(_, _) => phase.MutatorCleared?
    case LockFinalizer(_) => phase.Resting? && d.lock.None?
    case LoadFinalizer(_) => phase.FinalizerLocked?
    case SaveFinalizer(_, _) => phase.FinalizerLoaded?
    case LockCreator(_) => phase.Resting? && d.lock.None?
    case CheckAbsent(_) => phase.CreatorLocked?
    case SaveCreator(_, _) => phase.CreatorCleared?
    case Release(_) => HoldsLock(phase)
    case Crash(_) => true
  }

  function Next(d: Disk, e: Event): Disk
    requires Enabled(d, e)
  {
    match e
    case LoadToMutate(p) => Loaded(d, p, Mutating(d.file))
    case LoadAgain(p) => Loaded(d, p, PhaseOf(d, p))
    case LockMutator(p) => SetPhase(d, p, MutatorLocked(PhaseOf(d, p).basis)).(lock := Some(p))
    case Compare(p) =>
      if LoadedBy(d, p).Some? && LoadedBy(d, p).value != d.file then Unlocked(d, p)
      else SetPhase(d, p, MutatorCleared(PhaseOf(d, p).basis))
    case SaveMutator(p, next) => Saved(d, p, PhaseOf(d, p).basis, next)
    case LockFinalizer(p) => SetPhase(d, p, FinalizerLocked).(lock := Some(p))
    case LoadFinalizer(p) => Loaded(d, p, FinalizerLoaded(d.file))
    case SaveFinalizer(p, next) => Saved(d, p, PhaseOf(d, p).basis, next)
    case LockCreator(p) => SetPhase(d, p, CreatorLocked).(lock := Some(p))
    case CheckAbsent(p) => if d.file.None? then SetPhase(d, p, CreatorCleared) else Unlocked(d, p)
    case SaveCreator(p, next) => Saved(d, p, None, next)
    case Release(p) => Unlocked(d, p)
    case Crash(p) => d.(processes := d.processes[p := Process(None, Resting)], lock := if d.lock == Some(p) then None else d.lock)
  }

  // ----- the invariant

  /** What the phase of a process says about the file while it holds the lock. */
  ghost predicate PhaseOK(d: Disk, p: ProcessId) {
    && (HoldsLock(PhaseOf(d, p)) <==> d.lock == Some(p))
    && match PhaseOf(d, p)
       case Mutating(_) => LoadedBy(d, p).Some?
       case MutatorLocked(_) => LoadedBy(d, p).Some?
       case MutatorCleared(_) => LoadedBy(d, p) == Some(d.file)
       case FinalizerLoaded(basis) => basis == d.file
       case CreatorCleared => d.file.None?
       case _ => true
  }

  ghost predicate Consistent(d: Disk) {
    forall p :: PhaseOK(d, p)
  }

  lemma StepConsistent(d: Disk, e: Event)
    requires Consistent(d) && Enabled(d, e)
    ensures Consistent(Next(d, e))
  {
    forall p ensures PhaseOK(Next(d, e), p) {
      assert PhaseOK(d, p) && PhaseOK(d, e.p);
    }
  }

  /** The process still holds the vault of its latest load. */
  predicate StraightAt(d: Disk, p: ProcessId) {
    PhaseOf(d, p).Mutating? || PhaseOf(d, p).MutatorLocked? || PhaseOf(d, p).MutatorCleared? ==>
      LoadedBy(d, p) == Some(PhaseOf(d, p).basis)
  }

  ghost predicate Straight(d: Disk) {
    forall p :: StraightAt(d, p)
  }

  lemma StepStraight(d: Disk, e: Event)
    requires Straight(d) && Enabled(d, e) && !e.LoadAgain?
    ensures Straight(Next(d, e))
  {
    forall p ensures StraightAt(Next(d, e), p) {
      assert StraightAt(d, p) && StraightAt(d, e.p);
    }
  }

  /** A mutator's save replaces the very content its vault was computed from
      exactly when that content is still the one its process loaded last. */
  lemma MutatorSave(d: Disk, p: ProcessId, next: Content)
    requires Consistent(d) && Enabled(d, SaveMutator(p, next))
    ensures var n := Next(d, SaveMutator(p, next));
      n.file == Some(next) && n.log == d.log + [Commit(p, PhaseOf(d, p).basis, d.file, next)]
      && (PhaseOf(d, p).basis == d.file <==> LoadedBy(d, p) == Some(PhaseOf(d, p).basis))
  {
    assert PhaseOK(d, p);
  }

  /** A mutator that holds an older version than the file's saves nothing. */
  lemma StaleMutatorSavesNothing(d: Disk, p: ProcessId)
    requires Consistent(d) && Straight(d) && Enabled(d, Compare(p)) && PhaseOf(d, p).basis != d.file
    ensures var n := Next(d, Compare(p)); n.file == d.file && n.log == d.log && PhaseOf(n, p).Resting? && n.lock.None?
  {
    assert PhaseOK(d, p) && StraightAt(d, p);
  }

  /** A mutator nobody overtakes commits what it computed from the content it replaces. */
  lemma UnrivalledMutatorCommits(d: Disk, p: ProcessId, next: Content)
    requires PhaseOf(d, p).Resting? && d.lock.None?
    ensures
      var locked := Next(Next(d, LoadToMutate(p)), LockMutator(p));
      var cleared := Next(locked, Compare(p));
      && Enabled(cleared, SaveMutator(p, next))
      && var n := Next(cleared, SaveMutator(p, next));
         n.file == Some(next) && n.log == d.log + [Commit(p, d.file, d.file, next)] && n.lock.None?
  {
    var loaded := Next(d, LoadToMutate(p));
    assert LoadedBy(loaded, p) == Some(d.file);
    assert PhaseOf(Next(loaded, LockMutator(p)), p) == MutatorLocked(d.file);
  }

  /** A finalizer nobody overtakes commits over the content it loads. */
  lemma UnrivalledFinalizerCommits(d: Disk, p: ProcessId, next: Content)
    requires PhaseOf(d, p).Resting? && d.lock.None?
    ensures
      var loaded := Next(Next(d, LockFinalizer(p)), LoadFinalizer(p));
      && Enabled(loaded, SaveFinalizer(p, next))
      && var n := Next(loaded, SaveFinalizer(p, next));
         n.file == Some(next) && n.log == d.log + [Commit(p, d.file, d.file, next)] && n.lock.None?
  {
    assert PhaseOf(Next(d, LockFinalizer(p)), p) == FinalizerLocked;
  }

  /** A creator gets to save exactly if there is no file, and leaves an existing one alone. */
  lemma CreatorExactly(d: Disk, p: ProcessId, next: Content)
    requires PhaseOf(d, p).Resting? && d.lock.None?
    ensures
      var checked := Next(Next(d, LockCreator(p)), CheckAbsent(p));
      && checked.file == d.file && checked.log == d.log
      && (Enabled(checked, SaveCreator(p, next)) <==> d.file.None?)
      && if d.file.None? then
           var n := Next(checked, SaveCreator(p, next));
           n.file == Some(next) && n.log == d.log + [Commit(p, None, None, next)] && n.lock.None?
         else PhaseOf(checked, p).Resting? && checked.lock.None?
  {
    assert PhaseOf(Next(d, LockCreator(p)), p) == CreatorLocked;
  }

  /** A mutator gets to save exactly if the file is what its process loaded last. */
  lemma CompareExactly(d: Disk, p: ProcessId, next: Content)
    requires Consistent(d) && Enabled(d, Compare(p))
    ensures var n := Next(d, Compare(p));
      && n.file == d.file && n.log == d.log
      && (Enabled(n, SaveMutator(p, next)) <==> LoadedBy(d, p) == Some(d.file))
      && (!Enabled(n, SaveMutator(p, next)) ==> PhaseOf(n, p).Resting? && n.lock.None?)
  {
    assert PhaseOK(d, p);
  }

  /** At most one process holds the lock. */
  lemma OneHolder(d: Disk, p: ProcessId, q: ProcessId)
    requires Consistent(d) && HoldsLock(PhaseOf(d, p)) && HoldsLock(PhaseOf(d, q))
    ensures p == q
  {
    assert PhaseOK(d, p) && PhaseOK(d, q);
  }

  // ----- runs

  ghost predicate Init(d: Disk) {
    d.lock.None? && d.processes == map[] && d.log == []
  }

  ghost predicate Step(d: Disk, n: Disk) {
    exists e :: Enabled(d, e) && !e.LoadAgain? && n == Next(d, e)
  }

  ghost predicate Run(run: seq<Disk>) {
    run != [] && Init(run[0]) && forall k :: 0 <= k < |run| - 1 ==> Step(run[k], run[k + 1])
  }

  /** The commits form a chain from the first content of the file to its present one. */
  ghost predicate Chained(first: Option<Content>, d: Disk) {
    && (forall i :: 0 <= i < |d.log| ==> d.log[i].replaced == ContentAfter(first, d.log, i))
    && d.file == ContentAfter(first, d.log, |d.log|)
  }

  /** The file after the first `i` commits. */
  function ContentAfter(first: Option<Content>, log: seq<Commit>, i: nat): Option<Content>
    requires i <= |log|
  {
    if i == 0 then first else Some(log[i - 1].next)
  }

  ghost predicate NothingLost(d: Disk) {
    forall i :: 0 <= i < |d.log| ==> d.log[i].basis == d.log[i].replaced
  }

  lemma ChainGrows(first: Option<Content>, d: Disk, n: Disk, c: Commit)
    requires Chained(first, d) && NothingLost(d)
    requires n.log == d.log + [c] && c.basis == c.replaced == d.file && n.file == Some(c.next)
    ensures Chained(first, n) && NothingLost(n)
  {
    assert n.log[|d.log|] == c;
    forall i | 0 <= i < |n.log|
      ensures n.log[i].replaced == ContentAfter(first, n.log, i) && n.log[i].basis == n.log[i].replaced
    {
      if i < |d.log| {
        AfterSame(first, d.log, n.log, i);
      } else {
        AfterSame(first, d.log, n.log, |d.log|);
      }
    }
  }

  lemma AfterSame(first: Option<Content>, log: seq<Commit>, longer: seq<Commit>, i: nat)
    requires i <= |log| && log <= longer
    ensures ContentAfter(first, log, i) == ContentAfter(first, longer, i)
    ensures i < |log| ==> log[i] == longer[i]
  {
  }

  lemma StepLog(d: Disk, e: Event)
    requires Consistent(d) && Straight(d) && Enabled(d, e)
    ensures var n := Next(d, e);
      || (n.log == d.log && n.file == d.file)
      || exists c: Commit :: n.log == d.log + [c] && c.basis == c.replaced == d.file && n.file == Some(c.next)
  {
    assert PhaseOK(d, e.p) && StraightAt(d, e.p);
    var n := Next(d, e);
    match e {
      case SaveMutator(p, next) => assert n.log == d.log + [Commit(p, PhaseOf(d, p).basis, d.file, next)];
      case SaveFinalizer(p, next) => assert n.log == d.log + [Commit(p, PhaseOf(d, p).basis, d.file, next)];
      case SaveCreator(p, next) => assert n.log == d.log + [Commit(p, None, d.file, next)];
      case _ =>
    }
  }

  /** In every interleaving of mutators, finalizers and creators, crashes included,
      each committed vault was computed from the content it replaced, so no
      committed update is ever lost. */
  lemma {:induction false} NoLostUpdate(run: seq<Disk>, k: nat)
    requires Run(run) && k < |run|
    ensures Consistent(run[k]) && Straight(run[k])
    ensures NothingLost(run[k]) && Chained(run[0].file, run[k])
  {
    if k > 0 {
      NoLostUpdate(run, k - 1);
      var d := run[k - 1];
      assert Step(run[k - 1], run[k - 1 + 1]);
      var e :| Enabled(d, e) && !e.LoadAgain? && run[k] == Next(d, e);
      StepConsistent(d, e);
      StepStraight(d, e);
      StepLog(d, e);
      if run[k].log != d.log || run[k].file != d.file {
        var c: Commit :| run[k].log == d.log + [c] && c.basis == c.replaced == d.file && run[k].file == Some(c.next);
        ChainGrows(run[0].file, d, run[k], c);
      }
    }
  }

  /** The guard remembers one identity per process: a process that loads the vault
      again while it holds an older one overwrites the newer file. */
  lemma LoadingAgainLosesUpdates(d: Disk, p: ProcessId, next: Content)
    requires PhaseOf(d, p).Mutating? && PhaseOf(d, p).basis != d.file && d.lock.None?
    ensures var again := Next(d, LoadAgain(p));
      var cleared := Next(Next(again, LockMutator(p)), Compare(p));
      Enabled(cleared, SaveMutator(p, next)) && !NothingLost(Next(cleared, SaveMutator(p, next)))
  {
    var again := Next(d, LoadAgain(p));
    var cleared := Next(Next(again, LockMutator(p)), Compare(p));
    var after := Next(cleared, SaveMutator(p, next));
    assert after.log[|d.log|] == Commit(p, PhaseOf(d, p).basis, d.file, next);
  }

  // ----- runs in which a process may load again

  /** The disks of a run and the events between them. */
  ghost predicate FreeRun(run: seq<Disk>, events: seq<Event>) {
    && |run| == |events| + 1 && Init(run[0])
    && forall k :: 0 <= k < |events| ==> Enabled(run[k], events[k]) && run[k + 1] == Next(run[k], events[k])
  }

  lemma {:induction false} FreeRunConsistent(run: seq<Disk>, events: seq<Event>, k: nat)
    requires FreeRun(run, events) && k < |run|
    ensures Consistent(run[k])
  {
    if k > 0 {
      FreeRunConsistent(run, events, k - 1);
      StepConsistent(run[k - 1], events[k - 1]);
      assert run[k - 1 + 1] == Next(run[k - 1], events[k - 1]);
    }
  }

  /** A mutator saves the vault of its latest load. */
  predicate StraightSave(d: Disk, e: Event) {
    e.SaveMutator? ==> StraightAt(d, e.p)
  }

  lemma StepLoses(d: Disk, e: Event)
    requires Consistent(d) && Enabled(d, e)
    ensures NothingLost(Next(d, e)) <==> NothingLost(d) && StraightSave(d, e)
  {
    assert PhaseOK(d, e.p);
    var n := Next(d, e);
    if e.SaveMutator? || e.SaveFinalizer? || e.SaveCreator? {
      var c := n.log[|d.log|];
      assert n.log == d.log + [c];
      assert c.basis == c.replaced <==> StraightSave(d, e);
      assert forall i :: 0 <= i < |d.log| ==> n.log[i] == d.log[i];
    }
  }

  /** With loading again allowed, nothing is lost in a run exactly when every mutator saved the vault
      of its latest load. */
  lemma {:induction false} NothingLostExactly(run: seq<Disk>, events: seq<Event>, k: nat)
    requires FreeRun(run, events) && k < |run|
    ensures NothingLost(run[k]) <==> forall j :: 0 <= j < k ==> StraightSave(run[j], events[j])
  {
    if k > 0 {
      NothingLostExactly(run, events, k - 1);
      FreeRunConsistent(run, events, k - 1);
      StepLoses(run[k - 1], events[k - 1]);
      assert run[k - 1 + 1] == Next(run[k - 1], events[k - 1]);
    }
  }

  lemma TakeStep(run: seq<Disk>, events: seq<Event>, e: Event) returns (longer: seq<Disk>, more: seq<Event>)
    requires FreeRun(run, events) && Enabled(run[|run| - 1], e)
    ensures FreeRun(longer, more) && longer[|longer| - 1] == Next(run[|run| - 1], e) && longer[0] == run[0]
  {
    longer, more := run + [Next(run[|run| - 1], e)], events + [e];
    forall k | 0 <= k < |more| ensures Enabled(longer[k], more[k]) && longer[k + 1] == Next(longer[k], more[k]) {
      if k < |events| {
        assert longer[k] == run[k] && longer[k + 1] == run[k + 1] && more[k] == events[k];
      }
    }
  }

  /** Such a run that loses an update: one process loads, another loads and saves, and the first loads
      again before it saves what it computed from its first load. */
  lemma LosingRun(first: Content, theirs: Content, ours: Content) returns (run: seq<Disk>, events: seq<Event>)
    requires theirs != first
    ensures FreeRun(run, events) && run[0].file == Some(first) && !NothingLost(run[|run| - 1])
  {
    run, events := [Disk(Some(first), None, map[], [])], [];
    run, events := TakeStep(run, events, LoadToMutate(0));
    run, events := TakeStep(run, events, LoadToMutate(1));
    run, events := TakeStep(run, events, LockMutator(1));
    run, events := TakeStep(run, events, Compare(1));
    run, events := TakeStep(run, events, SaveMutator(1, theirs));
    var d := run[|run| - 1];
    assert d.file == Some(theirs) && PhaseOf(d, 0) == Mutating(Some(first));
    run, events := TakeStep(run, events, LoadAgain(0));
    run, events := TakeStep(run, events, LockMutator(0));
    run, events := TakeStep(run, events, Compare(0));
    LoadingAgainLosesUpdates(d, 0, ours);
    run, events := TakeStep(run, events, SaveMutator(0, ours));
  }
}
