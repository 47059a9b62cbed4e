/** The concurrent download pool of src/client/updater/file_updater.cpp, as a machine whose steps are the
    atomic actions of its threads: a read of the exception slot, an increment of the shared index, a
    call on the listener, one report of a download, its end, the store of an exception. Any order of
    steps of the workers and the spawning thread is a run. The listener is the update ledger. */
module FileUpdater {
  import opened Options
  import opened Words
  import opened UpdateLedger

  /** `get_optimal_concurrent_download_count`. */
  function ThreadCount(hardware: nat, files: nat): (r: nat)
    ensures r == 1 || (r > 1 && r <= files && 3 * r <= 2 * hardware)
    ensures forall n: nat | n <= files && 3 * n <= 2 * hardware :: n <= r
  {
    var cores := hardware * 2 / 3;
    var wanted := if cores < files then cores else files;
    if wanted > 1 then wanted else 1
  }

  /** Where a worker is. The index names the file it has claimed. */
  datatype Phase =
    | Unborn
    | Checking
    | Claiming
    | Beginning(i: nat)
    | Downloading(i: nat)
    | Ending(i: nat)
    | Storing(i: nat)
    | Exited

  /** How `update_files` ended, if it has. */
  datatype Outcome = Busy | Rethrown(i: nat) | Finished

  /** The shared state and the workers; below the line, a record of what has happened so far:
      who claimed which file, which files were announced to the listener and which were finished, in
      order, how many files each worker claimed after a failure was recorded, how often `done_update`
      ran, and whether `end_file` ever missed its entry. */
  datatype Pool = Pool(
    files: seq<FileInfo>,
    next: nat,
    exception: Option<nat>,
    workers: seq<Phase>,
    ledger: Ledger,
    outcome: Outcome,
    claims: seq<nat>,
    begun: set<nat>,
    completed: seq<nat>,
    late: seq<nat>,
    doneCalls: nat,
    eraseFailed: bool)

  datatype Event =
    | Spawn(w: nat)
    | Check(w: nat)
    | Claim(w: nat)
    | Begin(w: nat, cancelled: bool)
    | Report(w: nat, progress: Word)
    | Abort(w: nat)
    | Finish(w: nat)
    | End(w: nat)
    | Store(w: nat)
    | Join

  function Start(files: seq<FileInfo>, hardware: nat): Pool {
    var n := ThreadCount(hardware, |files|);
    Pool(files, 0, None, seq(n, _ => Unborn), UpdateFiles(files), Busy, [], {}, [], seq(n, _ => 0), 0, false)
  }

  function Move(p: Pool, w: nat, phase: Phase): Pool
    requires w < |p.workers|
  {
    p.(workers := p.workers[w := phase])
  }

  predicate AllExited(p: Pool) {
    forall w | 0 <= w < |p.workers| :: p.workers[w] == Exited
  }

  /** One step; None when it is not that worker's turn to do this. */
  function Step(p: Pool, e: Event): Option<Pool> {
    if e.Join? then
      if p.outcome != Busy || !AllExited(p) then None
      else
        match p.exception
        case Some(i) => Some(p.(outcome := Rethrown(i)))
        case None => Some(p.(outcome := Finished, ledger := DoneUpdate(), doneCalls := p.doneCalls + 1))
    else if e.w >= |p.workers| || p.outcome != Busy then None
    else WorkerStep(p, e, p.workers[e.w])
  }

  function WorkerStep(p: Pool, e: Event, phase: Phase): Option<Pool>
    requires !e.Join? && e.w < |p.workers|
  {
    var w := e.w;
    match (e, phase)
    case (Spawn(_), Unborn) => Some(Move(p, w, Checking))
    case (Check(_), Checking) => Some(Move(p, w, if p.exception.Some? then Exited else Claiming))
    case (Claim(_), Claiming) => Some(ClaimNext(p, w))
    case (Begin(_, cancelled), Beginning(i)) =>
      if i >= |p.files| then None
      else if cancelled then Some(Move(p, w, Storing(i)))
      else Some(Move(p, w, Downloading(i)).(ledger := BeginFile(p.ledger, p.files[i]), begun := p.begun + {i}))
    case (Report(_, progress), Downloading(i)) =>
      if i >= |p.files| then None else Some(p.(ledger := FileProgress(p.ledger, p.files[i], progress)))
    case (Abort(_), Downloading(i)) => Some(Move(p, w, Storing(i)))
    case (Finish(_), Downloading(i)) => Some(Move(p, w, Ending(i)))
    case (End(_), Ending(i)) =>
      if i >= |p.files| then None
      else
        Some(Move(p, w, Checking).(
          ledger := EndFile(p.ledger, p.files[i]),
          completed := p.completed + [i],
          eraseFailed := p.eraseFailed || p.files[i].name !in p.ledger.downloading))
    case (Store(_), Storing(i)) => Some(Move(p, w, Exited).(exception := Some(i)))
    case _ => None
  }

  /** `current_index++`, and out of the loop when there is nothing left. */
  function ClaimNext(p: Pool, w: nat): Pool
    requires w < |p.workers|
  {
    var i := p.next;
    if i >= |p.files| then Move(p, w, Exited).(next := i + 1)
    else
      Move(p, w, Beginning(i)).(
        next := i + 1,
        claims := p.claims + [w],
        late := if p.exception.Some? && w < |p.late| then p.late[w := p.late[w] + 1] else p.late)
  }

  function Run(p: Pool, events: seq<Event>): Option<Pool>
    decreases |events|
  {
    if events == [] then Some(p)
    else
      match Step(p, events[0])
      case None => None
      case Some(p') => Run(p', events[1..])
  }

  // ---- The pool invariant ----

  /** The worker is the one on record for the file, which is not finished. */
  ghost predicate Owns(p: Pool, w: nat, i: nat) {
    i < |p.claims| && p.claims[i] == w && i !in p.completed
  }

  predicate Holding(phase: Phase, i: nat) {
    phase == Beginning(i) || phase == Downloading(i) || phase == Ending(i) || phase == Storing(i)
  }

  function CountExited(workers: seq<Phase>): nat {
    if workers == [] then 0
    else (if workers[0] == Exited then 1 else 0) + CountExited(workers[1..])
  }

  ghost predicate NoDuplicates(s: seq<nat>) {
    forall i, j | 0 <= i < j < |s| :: s[i] != s[j]
  }

  ghost predicate WorkerRight(p: Pool, w: nat)
    requires w < |p.workers|
  {
    match p.workers[w]
    case Beginning(i) => Owns(p, w, i) && i !in p.begun
    case Downloading(i) => Owns(p, w, i) && i in p.begun
    case Ending(i) => Owns(p, w, i) && i in p.begun
    case Storing(i) => Owns(p, w, i)
    case _ => true
  }

  /** Claims are handed out once each, in order, to the worker on record, and kept until done. */
  ghost predicate ClaimsKept(p: Pool) {
    && |p.claims| == (if p.next < |p.files| then p.next else |p.files|)
    && (forall w: nat | w < |p.workers| :: WorkerRight(p, w))
    && (forall i | i in p.begun :: i < |p.claims|)
    && (forall i | i in p.completed :: i in p.begun)
    && (forall i: nat | i < |p.claims| :: p.claims[i] < |p.workers|)
    && NoDuplicates(p.completed)
  }

  /** A claimed index is completed or still held by the worker on record. */
  ghost predicate Accounted(p: Pool, i: nat)
    requires i < |p.claims|
  {
    i in p.completed || (p.claims[i] < |p.workers| && Holding(p.workers[p.claims[i]], i))
  }

  /** Without a recorded failure nothing claimed is ever dropped, and workers leave only when all is claimed. */
  ghost predicate NothingDropped(p: Pool) {
    p.exception.None? ==>
      && (forall i: nat | i < |p.claims| :: Accounted(p, i))
      && (forall w | 0 <= w < |p.workers| && p.workers[w] == Exited :: p.next > |p.files|)
  }

  /** Once a failure is recorded a worker claims at most one more file. */
  ghost predicate FewLateClaims(p: Pool) {
    && |p.late| == |p.workers|
    && (forall w | 0 <= w < |p.workers| ::
          p.late[w] == 0 || (p.late[w] == 1 && p.exception.Some? && p.workers[w] != Claiming))
  }

  ghost predicate IndexBounded(p: Pool) {
    p.next <= |p.files| + CountExited(p.workers)
  }

  ghost predicate OutcomeRight(p: Pool) {
    match p.outcome
    case Busy => p.doneCalls == 0
    case Rethrown(i) => p.doneCalls == 0 && p.exception == Some(i) && AllExited(p)
    case Finished => p.doneCalls == 1 && p.exception.None? && AllExited(p)
  }

  ghost predicate PoolInv(p: Pool) {
    ClaimsKept(p) && NothingDropped(p) && FewLateClaims(p) && IndexBounded(p) && OutcomeRight(p)
  }

  lemma {:induction false} CountExitedUpdate(workers: seq<Phase>, w: nat, phase: Phase)
    requires w < |workers|
    ensures CountExited(workers[w := phase]) ==
            CountExited(workers) - (if workers[w] == Exited then 1 else 0) + (if phase == Exited then 1 else 0)
  {
    var updated := workers[w := phase];
    if w > 0 {
      CountExitedUpdate(workers[1..], w - 1, phase);
      assert updated[1..] == workers[1..][w - 1 := phase];
    } else {
      assert updated[1..] == workers[1..];
    }
  }

  lemma {:induction false} CountExitedBound(workers: seq<Phase>)
    ensures CountExited(workers) <= |workers|
  {
    if workers != [] {
      CountExitedBound(workers[1..]);
    }
  }

  /** A worker that moves on without claiming, announcing or finishing anything. */
  lemma MoveKeepsClaims(p: Pool, p': Pool, w: nat)
    requires ClaimsKept(p) && w < |p.workers|
    requires p'.files == p.files && p'.claims == p.claims && p'.begun == p.begun && p'.completed == p.completed
    requires |p'.claims| == if p'.next < |p'.files| then p'.next else |p'.files|
    requires |p'.workers| == |p.workers| && forall v | 0 <= v < |p.workers| && v != w :: p'.workers[v] == p.workers[v]
    requires WorkerRight(p, w) ==> WorkerRight(p', w)
    ensures ClaimsKept(p')
  {
    forall v: nat | v < |p'.workers|
      ensures WorkerRight(p', v)
    {
      assert WorkerRight(p, v);
    }
  }

  lemma ClaimKeepsClaims(p: Pool, w: nat)
    requires ClaimsKept(p) && w < |p.workers| && p.workers[w] == Claiming && p.next < |p.files|
    ensures ClaimsKept(ClaimNext(p, w))
  {
    forall v: nat | v < |p.workers|
      ensures WorkerRight(ClaimNext(p, w), v)
    {
      assert WorkerRight(p, v);
    }
  }

  lemma BeginKeepsClaims(p: Pool, w: nat, i: nat, ledger: Ledger)
    requires ClaimsKept(p) && w < |p.workers| && p.workers[w] == Beginning(i)
    ensures ClaimsKept(Move(p, w, Downloading(i)).(ledger := ledger, begun := p.begun + {i}))
  {
    assert WorkerRight(p, w);
    forall v: nat | v < |p.workers|
      ensures WorkerRight(Move(p, w, Downloading(i)).(ledger := ledger, begun := p.begun + {i}), v)
    {
      assert WorkerRight(p, v);
    }
  }

  lemma EndKeepsClaims(p: Pool, w: nat, i: nat, ledger: Ledger, missed: bool)
    requires ClaimsKept(p) && w < |p.workers| && p.workers[w] == Ending(i)
    ensures ClaimsKept(Move(p, w, Checking).(ledger := ledger, completed := p.completed + [i], eraseFailed := missed))
  {
    assert WorkerRight(p, w);
    forall v: nat | v < |p.workers|
      ensures WorkerRight(
                Move(p, w, Checking).(ledger := ledger, completed := p.completed + [i], eraseFailed := missed), v)
    {
      assert WorkerRight(p, v);
    }
  }

  lemma StepKeepsClaims(p: Pool, e: Event)
    requires ClaimsKept(p) && Step(p, e).Some?
    ensures ClaimsKept(Step(p, e).value)
  {
    hide ClaimsKept;
    ClaimCount(p);
    if e.Join? {
      JoinKeepsClaims(p, Step(p, e).value);
    } else {
      WorkerStepKeepsClaims(p, e);
    }
  }

  lemma WorkerStepKeepsClaims(p: Pool, e: Event)
    requires ClaimsKept(p) && !e.Join? && Step(p, e).Some?
    requires |p.claims| == if p.next < |p.files| then p.next else |p.files|
    ensures ClaimsKept(Step(p, e).value)
  {
    hide BeginFile, FileProgress, EndFile, DoneUpdate, ClaimsKept;
    var p' := Step(p, e).value;
    if e.Begin? && !e.cancelled {
      BeginKeepsClaims(p, e.w, p.workers[e.w].i, p'.ledger);
    } else if e.End? {
      EndKeepsClaims(p, e.w, p.workers[e.w].i, p'.ledger, p'.eraseFailed);
    } else if e.Claim? && p.next < |p.files| {
      ClaimKeepsClaims(p, e.w);
    } else {
      MoveKeepsClaims(p, p', e.w);
    }
  }

  lemma ClaimCount(p: Pool)
    requires ClaimsKept(p)
    ensures |p.claims| == if p.next < |p.files| then p.next else |p.files|
  {
  }

  lemma JoinKeepsClaims(p: Pool, p': Pool)
    requires ClaimsKept(p) && p' == p.(outcome := p'.outcome, ledger := p'.ledger, doneCalls := p'.doneCalls)
    ensures ClaimsKept(p')
  {
    forall v: nat | v < |p'.workers|
      ensures WorkerRight(p', v)
    {
      assert WorkerRight(p, v);
    }
  }

  lemma StepKeepsAccounted(p: Pool, e: Event, i: nat)
    requires ClaimsKept(p) && Step(p, e).Some? && i < |p.claims| && Accounted(p, i)
    requires Step(p, e).value.exception.None?
    ensures i < |Step(p, e).value.claims| && Accounted(Step(p, e).value, i)
  {
    hide BeginFile, FileProgress, EndFile, DoneUpdate, ClaimsKept;
  }

  lemma StepKeepsNothingDropped(p: Pool, e: Event)
    requires ClaimsKept(p) && NothingDropped(p) && Step(p, e).Some?
    ensures NothingDropped(Step(p, e).value)
  {
    hide BeginFile, FileProgress, EndFile, DoneUpdate, ClaimsKept, Accounted, Holding;
    var p' := Step(p, e).value;
    if p'.exception.None? {
      forall i: nat | i < |p'.claims|
        ensures Accounted(p', i)
      {
        if i < |p.claims| {
          StepKeepsAccounted(p, e, i);
        } else {
          NewClaimAccounted(p, e);
        }
      }
    }
  }

  lemma NewClaimAccounted(p: Pool, e: Event)
    requires ClaimsKept(p) && Step(p, e).Some? && |Step(p, e).value.claims| > |p.claims|
    ensures |Step(p, e).value.claims| == |p.claims| + 1 && Accounted(Step(p, e).value, |p.claims|)
  {
    hide BeginFile, FileProgress, EndFile, DoneUpdate;
  }

  lemma StepKeepsFewLateClaims(p: Pool, e: Event)
    requires FewLateClaims(p) && Step(p, e).Some?
    ensures FewLateClaims(Step(p, e).value)
  {
    hide BeginFile, FileProgress, EndFile, DoneUpdate, AllExited;
  }

  lemma StepKeepsIndexBounded(p: Pool, e: Event)
    requires IndexBounded(p) && Step(p, e).Some?
    ensures IndexBounded(Step(p, e).value)
  {
    if !e.Join? {
      CountExitedUpdate(p.workers, e.w, Step(p, e).value.workers[e.w]);
    }
  }

  lemma StepKeepsOutcome(p: Pool, e: Event)
    requires OutcomeRight(p) && Step(p, e).Some?
    ensures OutcomeRight(Step(p, e).value)
  {
  }

  lemma StepKeepsPoolInv(p: Pool, e: Event)
    requires PoolInv(p) && Step(p, e).Some?
    ensures PoolInv(Step(p, e).value)
  {
    StepKeepsClaims(p, e);
    StepKeepsNothingDropped(p, e);
    StepKeepsFewLateClaims(p, e);
    StepKeepsIndexBounded(p, e);
    StepKeepsOutcome(p, e);
    hide Step, ClaimsKept, NothingDropped, FewLateClaims, IndexBounded, OutcomeRight;
  }

  lemma StartIsRight(files: seq<FileInfo>, hardware: nat)
    ensures PoolInv(Start(files, hardware))
  {
  }

  lemma StepKeepsSize(p: Pool, e: Event)
    requires Step(p, e).Some?
    ensures |Step(p, e).value.workers| == |p.workers| && Step(p, e).value.files == p.files
  {
  }

  lemma {:induction false} RunKeepsPoolInv(p: Pool, events: seq<Event>)
    requires PoolInv(p) && Run(p, events).Some?
    ensures PoolInv(Run(p, events).value)
    ensures |Run(p, events).value.workers| == |p.workers| && Run(p, events).value.files == p.files
    decreases |events|
  {
    if events != [] {
      StepKeepsSize(p, events[0]);
      hide PoolInv, Step;
      StepKeepsPoolInv(p, events[0]);
      RunKeepsPoolInv(Step(p, events[0]).value, events[1..]);
    }
  }

  /** Two workers never hold the same file. */
  ghost predicate ClaimedOnce(p: Pool) {
    forall v: nat, w: nat, i: nat |
        v < |p.workers| && w < |p.workers| && Holding(p.workers[v], i) && Holding(p.workers[w], i) ::
      v == w
  }

  /** Every file was finished, and finished once. */
  ghost predicate AllCompletedOnce(p: Pool) {
    && |p.completed| == |p.files|
    && NoDuplicates(p.completed)
    && forall i: nat :: i in p.completed <==> i < |p.files|
  }

  lemma InvClaimsOnce(p: Pool)
    requires ClaimsKept(p)
    ensures ClaimedOnce(p)
  {
    forall v: nat, w: nat, i: nat |
        v < |p.workers| && w < |p.workers| && Holding(p.workers[v], i) && Holding(p.workers[w], i)
      ensures v == w
    {
      assert WorkerRight(p, v) && WorkerRight(p, w);
    }
  }

  lemma FirstIsIn(s: seq<nat>)
    ensures s == [] || s[0] in s
  {
  }

  /** A list without duplicates that contains exactly the numbers below `n` has length `n`. */
  lemma {:induction false} CountedOnce(s: seq<nat>, n: nat)
    requires NoDuplicates(s) && forall i: nat :: i in s <==> i < n
    ensures |s| == n
    decreases n
  {
    FirstIsIn(s);
    if n > 0 {
      assert n - 1 in s;
      var k :| 0 <= k < |s| && s[k] == n - 1;
      var rest := s[..k] + s[k + 1..];
      assert forall i: nat :: i in rest <==> i in s && i != n - 1 by {
        forall i: nat | i in s && i != n - 1
          ensures i in rest
        {
          var j :| 0 <= j < |s| && s[j] == i;
          assert rest[if j < k then j else j - 1] == i;
        }
      }
      CountedOnce(rest, n - 1);
    }
  }

  /** When all workers have left and no failure is recorded, everything was completed. */
  lemma QuietEndIsComplete(p: Pool)
    requires PoolInv(p) && AllExited(p) && p.exception.None? && |p.workers| > 0
    ensures AllCompletedOnce(p)
  {
    assert p.workers[0] == Exited;
    forall i: nat
      ensures i in p.completed <==> i < |p.files|
    {
      if i < |p.files| {
        assert Accounted(p, i);
      }
    }
    CountedOnce(p.completed, |p.files|);
  }

  /** In every run, whatever the interleaving: no file is held by two workers or finished twice, the shared
      index stays below the number of files plus the number of workers, a worker claims at most one file
      after a failure was recorded. The update has ended exactly when the join was made; then `done_update`
      has run if and only if no failure is stored, and every file was completed exactly once, and
      otherwise the stored failure is rethrown. */
  lemma PoolIsSafe(files: seq<FileInfo>, hardware: nat, events: seq<Event>)
    requires Run(Start(files, hardware), events).Some?
    ensures var p := Run(Start(files, hardware), events).value;
            && ClaimedOnce(p) && NoDuplicates(p.completed)
            && p.next <= |files| + ThreadCount(hardware, |files|)
            && (forall w | 0 <= w < |p.late| :: p.late[w] <= 1)
            && (p.doneCalls > 0 <==> p.outcome == Finished) && p.doneCalls <= 1
            && (p.outcome == Finished ==> AllCompletedOnce(p))
            && (p.outcome != Busy ==> AllExited(p) && (p.outcome == Finished <==> p.exception.None?))
            && (p.outcome != Busy && p.exception.Some? ==> p.outcome == Rethrown(p.exception.value))
            && (p.outcome == Busy && AllExited(p) ==>
                  && Step(p, Join).Some?
                  && Step(p, Join).value.outcome ==
                     if p.exception.Some? then Rethrown(p.exception.value) else Finished)
  {
    StartIsRight(files, hardware);
    RunKeepsPoolInv(Start(files, hardware), events);
    var p := Run(Start(files, hardware), events).value;
    InvClaimsOnce(p);
    CountExitedBound(p.workers);
    if p.outcome == Finished {
      QuietEndIsComplete(p);
    }
    if p.outcome == Busy && AllExited(p) {
      JoinDecides(p);
    }
    hide Run, ClaimsKept, NothingDropped, Step, Start;
  }

  /** The join always comes: once every worker has left, the update ends, with the recorded failure if
      there is one and with `done_update` if there is none. */
  lemma JoinDecides(p: Pool)
    requires PoolInv(p) && AllExited(p) && p.outcome == Busy
    ensures Step(p, Join).Some?
    ensures Step(p, Join).value.outcome == if p.exception.Some? then Rethrown(p.exception.value) else Finished
  {
  }

  // ---- Every update comes to an end ----

  /** What a worker can do next, in any phase but the last. */
  function NextOf(w: nat, phase: Phase): Event
    requires phase != Exited
  {
    match phase
    case Unborn => Spawn(w)
    case Checking => Check(w)
    case Claiming => Claim(w)
    case Beginning(_) => Begin(w, false)
    case Downloading(_) => Finish(w)
    case Ending(_) => End(w)
    case Storing(_) => Store(w)
  }

  /** As long as the update is busy some step can be made: no interleaving gets stuck. */
  lemma NeverStuck(files: seq<FileInfo>, hardware: nat, events: seq<Event>) returns (e: Event)
    requires Run(Start(files, hardware), events).Some?
    ensures var p := Run(Start(files, hardware), events).value;
            p.outcome == Busy ==> Step(p, e).Some? && !e.Report?
  {
    StartIsRight(files, hardware);
    RunKeepsPoolInv(Start(files, hardware), events);
    var p := Run(Start(files, hardware), events).value;
    hide Run, Start;
    if AllExited(p) {
      e := Join;
    } else {
      var w :| 0 <= w < |p.workers| && p.workers[w] != Exited;
      e := NextOf(w, p.workers[w]);
      WorkerNotStuck(p, w);
    }
  }

  lemma WorkerNotStuck(p: Pool, w: nat)
    requires ClaimsKept(p) && p.outcome == Busy && w < |p.workers| && p.workers[w] != Exited
    ensures Step(p, NextOf(w, p.workers[w])).Some?
  {
    assert WorkerRight(p, w);
    assert forall i | i in p.begun :: i < |p.claims|;
    hide NoDuplicates;
  }

  /** How many steps a worker may still make before its next claim, or its end. */
  function Rank(phase: Phase): nat {
    match phase
    case Unborn => 3
    case Checking => 2
    case Claiming => 1
    case Beginning(_) => 5
    case Downloading(_) => 4
    case Ending(_) => 3
    case Storing(_) => 1
    case Exited => 0
  }

  function Ranks(workers: seq<Phase>): nat {
    if workers == [] then 0 else Rank(workers[0]) + Ranks(workers[1..])
  }

  /** A bound on the steps still to come, reports aside. */
  function Remaining(p: Pool): nat {
    (if p.next < |p.files| then 5 * (|p.files| - p.next) else 0) + Ranks(p.workers) + if p.outcome == Busy then 1 else 0
  }

  lemma {:induction false} RanksUpdate(workers: seq<Phase>, w: nat, phase: Phase)
    requires w < |workers|
    ensures Ranks(workers[w := phase]) == Ranks(workers) - Rank(workers[w]) + Rank(phase)
  {
    var updated := workers[w := phase];
    if w > 0 {
      RanksUpdate(workers[1..], w - 1, phase);
      assert updated[1..] == workers[1..][w - 1 := phase];
    } else {
      assert updated[1..] == workers[1..];
    }
  }

  /** Every step but a report uses up at least one of the steps that remain. */
  lemma StepUsesUp(p: Pool, e: Event)
    requires Step(p, e).Some?
    ensures Remaining(Step(p, e).value) + (if e.Report? then 0 else 1) <= Remaining(p)
  {
    if !e.Join? {
      hide BeginFile, FileProgress, EndFile, DoneUpdate, Ranks;
      RanksUpdate(p.workers, e.w, Step(p, e).value.workers[e.w]);
    }
  }

  function Reports(events: seq<Event>): nat {
    if events == [] then 0 else Reports(events[1..]) + if events[0].Report? then 1 else 0
  }

  lemma {:induction false} RunUsesUp(p: Pool, events: seq<Event>)
    requires Run(p, events).Some?
    ensures |events| + Remaining(Run(p, events).value) <= Remaining(p) + Reports(events)
    decreases |events|
  {
    if events != [] {
      StepUsesUp(p, events[0]);
      hide Step, Remaining;
      RunUsesUp(Step(p, events[0]).value, events[1..]);
    }
  }

  lemma {:induction false} RanksOfUnborn(n: nat)
    ensures Ranks(seq(n, _ => Unborn)) == 3 * n
  {
    if n > 0 {
      RanksOfUnborn(n - 1);
      var all: seq<Phase> := seq(n, _ => Unborn);
      assert all[1..] == seq(n - 1, _ => Unborn);
    }
  }

  /** Every run ends: apart from progress reports it has at most five steps for each file, three for each
      worker and one for the join. */
  lemma RunsEnd(files: seq<FileInfo>, hardware: nat, events: seq<Event>)
    requires Run(Start(files, hardware), events).Some?
    ensures |events| <= Reports(events) + 5 * |files| + 3 * ThreadCount(hardware, |files|) + 1
  {
    RunUsesUp(Start(files, hardware), events);
    RanksOfUnborn(ThreadCount(hardware, |files|));
    hide Run, Ranks, ThreadCount;
  }

  // ---- What the events tell ----

  /** What a listener could note down from the events alone: the bytes last reported for each file, the files that
      failed, and the failure stored last. */
  datatype Account = Account(reports: map<nat, Word>, failed: set<nat>, stored: Option<nat>)

  function Blank(): Account {
    Account(map[], {}, None)
  }

  function Noted(a: Account, p: Pool, e: Event): Account {
    if e.Join? || e.w >= |p.workers| then a
    else
      match (e, p.workers[e.w])
      case (Begin(_, cancelled), Beginning(i)) => if cancelled then a.(failed := a.failed + {i}) else a
      case (Report(_, progress), Downloading(i)) => a.(reports := a.reports[i := progress])
      case (Abort(_), Downloading(i)) => a.(failed := a.failed + {i})
      case (Store(_), Storing(i)) => a.(stored := Some(i))
      case _ => a
  }

  /** The account of a run. */
  function AccountOf(p: Pool, events: seq<Event>, a: Account): Account
    decreases |events|
  {
    if events == [] then a
    else
      match Step(p, events[0])
      case None => a
      case Some(p') => AccountOf(p', events[1..], Noted(a, p, events[0]))
  }

  /** The bytes last reported for a file, none before the first report. */
  function Reported(a: Account, i: nat): nat {
    if i in a.reports then a.reports[i] else 0
  }

  // ---- Which failure is rethrown ----

  ghost predicate StoringNow(p: Pool, i: nat) {
    exists w: nat :: w < |p.workers| && p.workers[w] == Storing(i)
  }

  /** A failed file is never worked on again, and its failure is stored or about to be. */
  ghost predicate FailuresRight(p: Pool, a: Account) {
    && p.exception == a.stored
    && (a.stored.Some? ==> a.stored.value in a.failed)
    && (forall w: nat | w < |p.workers| :: FailureRight(p.workers[w], a))
    && (forall i | i in a.failed :: i < |p.claims| && i !in p.completed)
    && (p.exception.None? ==> forall i | i in a.failed :: StoringNow(p, i))
  }

  ghost predicate FailureRight(phase: Phase, a: Account) {
    match phase
    case Beginning(i) => i !in a.failed
    case Downloading(i) => i !in a.failed
    case Ending(i) => i !in a.failed
    case Storing(i) => i in a.failed
    case _ => true
  }

  /** A worker that fails at its file. */
  lemma FailureNoted(p: Pool, a: Account, w: nat, i: nat)
    requires ClaimsKept(p) && FailuresRight(p, a) && w < |p.workers| && Holding(p.workers[w], i)
    requires p.workers[w] == Beginning(i) || p.workers[w] == Downloading(i)
    ensures FailuresRight(Move(p, w, Storing(i)), a.(failed := a.failed + {i}))
  {
    var p', a' := Move(p, w, Storing(i)), a.(failed := a.failed + {i});
    InvClaimsOnce(p);
    assert WorkerRight(p, w);
    hide ClaimsKept, WorkerRight;
    assert StoringNow(p', i) by {
      assert p'.workers[w] == Storing(i);
    }
    forall v: nat | v < |p'.workers|
      ensures FailureRight(p'.workers[v], a')
    {
      assert FailureRight(p.workers[v], a);
      assert v != w ==> !Holding(p.workers[v], i);
    }
    forall k | k in a.failed && p.exception.None?
      ensures StoringNow(p', k)
    {
      StillStoring(p, p', w, k);
    }
  }

  lemma StillStoring(p: Pool, p': Pool, w: nat, i: nat)
    requires StoringNow(p, i) && w < |p.workers| == |p'.workers| && !p.workers[w].Storing?
    requires forall v | 0 <= v < |p.workers| && v != w :: p'.workers[v] == p.workers[v]
    ensures StoringNow(p', i)
  {
    var v: nat :| v < |p.workers| && p.workers[v] == Storing(i);
    assert p'.workers[v] == Storing(i);
  }

  /** A worker that moves on without failing, to a phase the account allows. */
  lemma NothingFailed(p: Pool, a: Account, p': Pool, a': Account, w: nat)
    requires FailuresRight(p, a) && w < |p.workers| == |p'.workers| && !p.workers[w].Storing?
    requires forall v | 0 <= v < |p.workers| && v != w :: p'.workers[v] == p.workers[v]
    requires p'.exception == p.exception && a'.failed == a.failed && a'.stored == a.stored
    requires |p'.claims| >= |p.claims| && FailureRight(p'.workers[w], a)
    requires forall i | i in p'.completed :: i in p.completed || i !in a.failed
    ensures FailuresRight(p', a')
  {
    hide StoringNow;
    forall v: nat | v < |p'.workers|
      ensures FailureRight(p'.workers[v], a')
    {
      assert v != w ==> FailureRight(p.workers[v], a);
    }
    forall i | i in a.failed && p.exception.None?
      ensures StoringNow(p', i)
    {
      StillStoring(p, p', w, i);
    }
  }

  lemma FailureStored(p: Pool, a: Account, w: nat, i: nat)
    requires FailuresRight(p, a) && w < |p.workers| && p.workers[w] == Storing(i)
    ensures FailuresRight(Move(p, w, Exited).(exception := Some(i)), a.(stored := Some(i)))
  {
    var p', a' := Move(p, w, Exited).(exception := Some(i)), a.(stored := Some(i));
    assert FailureRight(p.workers[w], a);
    forall v: nat | v < |p'.workers|
      ensures FailureRight(p'.workers[v], a')
    {
      assert FailureRight(p.workers[v], a);
    }
  }

  lemma StepKeepsFailures(p: Pool, a: Account, e: Event)
    requires ClaimsKept(p) && FailuresRight(p, a) && Step(p, e).Some?
    ensures FailuresRight(Step(p, e).value, Noted(a, p, e))
  {
    var p' := Step(p, e).value;
    if e.Join? {
      hide ClaimsKept;
    } else {
      WorkerKeepsFailures(p, a, e);
    }
  }

  lemma WorkerKeepsFailures(p: Pool, a: Account, e: Event)
    requires ClaimsKept(p) && FailuresRight(p, a) && Step(p, e).Some? && !e.Join?
    ensures FailuresRight(Step(p, e).value, Noted(a, p, e))
  {
    ClaimCount(p);
    var w, phase, p' := e.w, p.workers[e.w], Step(p, e).value;
    assert FailureRight(phase, a);
    assert forall i | i in a.failed :: i < |p.claims|;
    hide ClaimsKept, FailuresRight, BeginFile, FileProgress, EndFile, DoneUpdate;
    if (e.Begin? && e.cancelled) || e.Abort? {
      FailureNoted(p, a, w, phase.i);
    } else if e.Store? {
      FailureStored(p, a, w, phase.i);
    } else {
      NothingFailed(p, a, p', Noted(a, p, e), w);
    }
  }

  lemma {:induction false} RunKeepsFailures(p: Pool, events: seq<Event>, a: Account)
    requires PoolInv(p) && FailuresRight(p, a) && Run(p, events).Some?
    ensures PoolInv(Run(p, events).value) && FailuresRight(Run(p, events).value, AccountOf(p, events, a))
    ensures Run(p, events).value.files == p.files && |Run(p, events).value.workers| == |p.workers|
    decreases |events|
  {
    if events != [] {
      InvParts(p);
      StepKeepsSize(p, events[0]);
      hide PoolInv, FailuresRight, Step, Noted;
      StepKeepsPoolInv(p, events[0]);
      StepKeepsFailures(p, a, events[0]);
      RunKeepsFailures(Step(p, events[0]).value, events[1..], Noted(a, p, events[0]));
    }
  }

  lemma NobodyStoring(p: Pool, a: Account)
    requires FailuresRight(p, a) && AllExited(p)
    ensures p.exception.None? <==> a.failed == {}
  {
    forall i: nat
      ensures !StoringNow(p, i)
    {
    }
    hide StoringNow;
    assert p.exception.None? ==> forall i: nat :: i !in a.failed;
  }

  /** In every run: the exception slot holds the failure that was stored last, and it is that of a file whose
      begin was cancelled or whose download was aborted; no such file is ever completed. An update that has ended
      has finished exactly when no file failed, and otherwise rethrown the failure stored last. */
  lemma LastFailureIsRethrown(files: seq<FileInfo>, hardware: nat, events: seq<Event>)
    requires Run(Start(files, hardware), events).Some?
    ensures var p, a := Run(Start(files, hardware), events).value, AccountOf(Start(files, hardware), events, Blank());
            && p.exception == a.stored
            && (a.stored.Some? ==> a.stored.value in a.failed)
            && (forall i | i in a.failed :: i !in p.completed)
            && (p.outcome != Busy ==>
                  && (p.outcome == Finished <==> a.failed == {})
                  && (a.failed != {} ==> a.stored.Some? && p.outcome == Rethrown(a.stored.value)))
  {
    StartIsRight(files, hardware);
    RunKeepsFailures(Start(files, hardware), events, Blank());
    var p, a := Run(Start(files, hardware), events).value, AccountOf(Start(files, hardware), events, Blank());
    assert p.outcome != Busy ==> AllExited(p);
    hide Run, AccountOf, Start, ClaimsKept, NothingDropped, FewLateClaims, IndexBounded;
    if p.outcome != Busy {
      NobodyStoring(p, a);
    }
  }

  // ---- The ledger invariant ----

  ghost predicate DistinctNames(files: seq<FileInfo>) {
    forall i, j | 0 <= i < j < |files| :: files[i].name != files[j].name
  }

  /** The file was announced and is not finished. */
  predicate Open(p: Pool, i: nat) {
    i < |p.files| && i in p.begun && i !in p.completed
  }

  /** The file has its entry, with what was last reported. */
  ghost predicate Tracked(p: Pool, a: Account, i: nat)
    requires i < |p.files|
  {
    var name := p.files[i].name;
    name in p.ledger.downloading && p.ledger.downloading[name] == Progress(Reported(a, i), p.files[i].size)
  }

  ghost predicate TrackedFor(p: Pool, name: string, i: nat) {
    Open(p, i) && p.files[i].name == name
  }

  /** The ledger lists the update, the finished files in order and, by name, exactly the open ones, each with what
      was last reported for it. */
  ghost predicate LedgerRight(p: Pool, a: Account) {
    && p.ledger.total == p.files
    && |p.ledger.downloaded| == |p.completed|
    && (forall k | 0 <= k < |p.completed| ::
          p.completed[k] < |p.files| && p.ledger.downloaded[k] == p.files[p.completed[k]])
    && (forall i: nat | Open(p, i) :: Tracked(p, a, i))
    && (forall name | name in p.ledger.downloading :: exists i: nat :: TrackedFor(p, name, i))
    && (forall i | i in a.reports :: i in p.begun)
  }

  /** How much of a file is there: all of it once it is finished, otherwise what was last reported. */
  function ReceivedOf(p: Pool, a: Account, i: nat): nat
    requires i < |p.files|
  {
    if i in p.completed then p.files[i].size else Reported(a, i)
  }

  /** How much of the first `n` files is there. */
  function ReceivedIn(p: Pool, a: Account, n: nat): nat
    requires n <= |p.files|
  {
    if n == 0 then 0 else ReceivedIn(p, a, n - 1) + ReceivedOf(p, a, n - 1)
  }

  ghost predicate Balanced(p: Pool, a: Account) {
    DownloadedSize(p.ledger) == ReceivedIn(p, a, |p.files|)
  }

  ghost predicate LedgerInv(p: Pool, a: Account) {
    && DistinctNames(p.files) && !p.eraseFailed
    && (if p.outcome == Finished then p.ledger == Ledger([], [], map[]) else LedgerRight(p, a) && Balanced(p, a))
  }

  /** Only file `i` is there to another extent than before. */
  lemma {:induction false} ReceivedChanges(p: Pool, a: Account, p': Pool, a': Account, i: nat, n: nat)
    requires p'.files == p.files && n <= |p.files| && i < |p.files|
    requires forall j: nat | j < |p.files| && j != i :: ReceivedOf(p', a', j) == ReceivedOf(p, a, j)
    ensures ReceivedIn(p', a', n) ==
            ReceivedIn(p, a, n) + if i < n then ReceivedOf(p', a', i) - ReceivedOf(p, a, i) else 0
  {
    if n > 0 {
      ReceivedChanges(p, a, p', a', i, n - 1);
    }
  }

  /** Nothing is there to another extent. */
  lemma {:induction false} ReceivedStays(p: Pool, a: Account, p': Pool, a': Account, n: nat)
    requires p'.files == p.files && n <= |p.files| && p'.completed == p.completed && a'.reports == a.reports
    ensures ReceivedIn(p', a', n) == ReceivedIn(p, a, n)
  {
    if n > 0 {
      ReceivedStays(p, a, p', a', n - 1);
    }
  }

  /** The pool after a file was announced. */
  function Begun(p: Pool, w: nat, i: nat): Pool
    requires w < |p.workers| && i < |p.files|
  {
    Move(p, w, Downloading(i)).(ledger := BeginFile(p.ledger, p.files[i]), begun := p.begun + {i})
  }

  lemma BeginKeepsLedger(p: Pool, a: Account, w: nat, i: nat)
    requires ClaimsKept(p) && DistinctNames(p.files) && LedgerRight(p, a) && Balanced(p, a)
    requires w < |p.workers| && p.workers[w] == Beginning(i) && i < |p.files|
    ensures LedgerRight(Begun(p, w, i), a) && Balanced(Begun(p, w, i), a)
  {
    var p' := Begun(p, w, i);
    assert WorkerRight(p, w);
    hide ClaimsKept;
    assert p.files[i].name !in p.ledger.downloading;
    assert i !in a.reports;
    forall k: nat | Open(p', k)
      ensures Tracked(p', a, k)
    {
      if k != i {
        assert Open(p, k);
      }
    }
    forall name | name in p'.ledger.downloading
      ensures exists k: nat :: TrackedFor(p', name, k)
    {
      if name == p.files[i].name {
        assert TrackedFor(p', name, i);
      } else {
        var k: nat :| TrackedFor(p, name, k);
        assert TrackedFor(p', name, k);
      }
    }
    ReceivedStays(p, a, p', a, |p.files|);
    FlightSumUpdate(p.ledger.downloading, p.files[i].name, Progress(0, p.files[i].size));
  }

  lemma ReportKeepsLedger(p: Pool, a: Account, i: nat, progress: Word)
    requires DistinctNames(p.files) && LedgerRight(p, a) && Balanced(p, a) && Open(p, i)
    ensures var p' := p.(ledger := FileProgress(p.ledger, p.files[i], progress));
            var a' := a.(reports := a.reports[i := progress]);
            LedgerRight(p', a') && Balanced(p', a')
  {
    var p' := p.(ledger := FileProgress(p.ledger, p.files[i], progress));
    var a' := a.(reports := a.reports[i := progress]);
    ReportKeepsEntries(p, a, i, progress);
    assert Tracked(p, a, i) && i !in p.completed;
    hide LedgerRight, DistinctNames, Open;
    ReceivedChanges(p, a, p', a', i, |p.files|);
    FlightSumUpdate(p.ledger.downloading, p.files[i].name, Progress(progress, p.files[i].size));
    FlightSumWithout(p.ledger.downloading, p.files[i].name);
  }

  lemma ReportKeepsEntries(p: Pool, a: Account, i: nat, progress: Word)
    requires DistinctNames(p.files) && LedgerRight(p, a) && Open(p, i)
    ensures var p' := p.(ledger := FileProgress(p.ledger, p.files[i], progress));
            var a' := a.(reports := a.reports[i := progress]);
            LedgerRight(p', a')
  {
    var p' := p.(ledger := FileProgress(p.ledger, p.files[i], progress));
    var a' := a.(reports := a.reports[i := progress]);
    assert Tracked(p, a, i);
    forall k: nat | Open(p', k)
      ensures Tracked(p', a', k)
    {
      assert Open(p, k) && Tracked(p, a, k);
    }
    forall name | name in p'.ledger.downloading
      ensures exists k: nat :: TrackedFor(p', name, k)
    {
      var k: nat :| TrackedFor(p, name, k);
      assert TrackedFor(p', name, k);
    }
  }

  /** The pool after a worker has finished a file. */
  function Ended(p: Pool, w: nat, i: nat): Pool
    requires w < |p.workers| && i < |p.files|
  {
    Move(p, w, Checking).(ledger := EndFile(p.ledger, p.files[i]), completed := p.completed + [i])
  }

  lemma EndingIsOpen(p: Pool, a: Account, w: nat, i: nat)
    requires ClaimsKept(p) && LedgerRight(p, a) && w < |p.workers| && p.workers[w] == Ending(i) && i < |p.files|
    ensures Open(p, i) && Tracked(p, a, i) && i !in p.completed && p.files[i].name in p.ledger.downloading
  {
    assert WorkerRight(p, w);
    assert Open(p, i);
    hide NoDuplicates;
  }

  lemma OthersStayTracked(p: Pool, a: Account, w: nat, i: nat, k: nat)
    requires DistinctNames(p.files) && w < |p.workers| && i < |p.files| && Open(Ended(p, w, i), k)
    requires Open(p, k) ==> Tracked(p, a, k)
    ensures Tracked(Ended(p, w, i), a, k)
  {
    assert k != i && p.files[k].name != p.files[i].name;
    hide DistinctNames;
  }

  lemma StillOpenByName(p: Pool, a: Account, w: nat, i: nat, name: string)
    requires LedgerRight(p, a) && w < |p.workers| && i < |p.files|
    requires name in Ended(p, w, i).ledger.downloading
    ensures exists k: nat :: TrackedFor(Ended(p, w, i), name, k)
  {
    var k: nat :| TrackedFor(p, name, k);
    hide LedgerRight;
    assert TrackedFor(Ended(p, w, i), name, k);
  }

  lemma EndListsFile(p: Pool, a: Account, w: nat, i: nat)
    requires LedgerRight(p, a) && w < |p.workers| && i < |p.files|
    ensures var p' := Ended(p, w, i);
            && p'.ledger.total == p'.files
            && |p'.ledger.downloaded| == |p'.completed|
            && forall k | 0 <= k < |p'.completed| ::
                 p'.completed[k] < |p'.files| && p'.ledger.downloaded[k] == p'.files[p'.completed[k]]
  {
    hide Tracked, TrackedFor, Open;
  }

  lemma EndKeepsLedger(p: Pool, a: Account, w: nat, i: nat)
    requires ClaimsKept(p) && DistinctNames(p.files) && LedgerRight(p, a) && Balanced(p, a)
    requires w < |p.workers| && p.workers[w] == Ending(i) && i < |p.files|
    ensures p.files[i].name in p.ledger.downloading
    ensures LedgerRight(Ended(p, w, i), a) && Balanced(Ended(p, w, i), a)
  {
    var p' := Ended(p, w, i);
    assert p'.files == p.files && p'.begun == p.begun;
    assert forall k: nat | Open(p', k) :: k < |p.files| && Open(p, k);
    hide Ended, Tracked, TrackedFor, ClaimsKept, DistinctNames, Balanced;
    EndingIsOpen(p, a, w, i);
    EndListsFile(p, a, w, i);
    forall k: nat | Open(p', k)
      ensures Tracked(p', a, k)
    {
      OthersStayTracked(p, a, w, i, k);
    }
    forall name | name in p'.ledger.downloading
      ensures exists k: nat :: TrackedFor(p', name, k)
    {
      StillOpenByName(p, a, w, i, name);
    }
    EndKeepsSizes(p, a, w, i);
  }

  lemma EndKeepsSizes(p: Pool, a: Account, w: nat, i: nat)
    requires Balanced(p, a) && w < |p.workers| && i < |p.files| && Tracked(p, a, i) && i !in p.completed
    ensures Balanced(Ended(p, w, i), a)
  {
    SizeSumAppend(p.ledger.downloaded, [p.files[i]]);
    FlightSumWithout(p.ledger.downloading, p.files[i].name);
    ReceivedChanges(p, a, Ended(p, w, i), a, i, |p.files|);
    hide ReceivedIn;
  }

  lemma StepKeepsLedgerInv(p: Pool, a: Account, e: Event)
    requires PoolInv(p) && LedgerInv(p, a) && Step(p, e).Some?
    ensures LedgerInv(Step(p, e).value, Noted(a, p, e))
  {
    var p', a' := Step(p, e).value, Noted(a, p, e);
    hide PoolInv, DistinctNames, LedgerRight, Balanced;
    if e.Join? {
      SameLedger(p, p', a, a');
    } else {
      InvParts(p);
      if e.Begin? && !e.cancelled {
        BeginKeepsLedger(p, a, e.w, p.workers[e.w].i);
      } else if e.Report? {
        OpenWhileDownloading(p, e.w);
        ReportKeepsLedger(p, a, p.workers[e.w].i, e.progress);
      } else if e.End? {
        EndKeepsLedger(p, a, e.w, p.workers[e.w].i);
      } else {
        SameLedger(p, p', a, a');
      }
    }
  }

  lemma InvParts(p: Pool)
    requires PoolInv(p)
    ensures ClaimsKept(p)
  {
  }

  lemma OpenWhileDownloading(p: Pool, w: nat)
    requires ClaimsKept(p) && w < |p.workers| && p.workers[w].Downloading? && p.workers[w].i < |p.files|
    ensures Open(p, p.workers[w].i)
  {
    assert WorkerRight(p, w);
  }

  lemma SameLedger(p: Pool, p': Pool, a: Account, a': Account)
    requires LedgerRight(p, a) && Balanced(p, a) && p'.files == p.files && a'.reports == a.reports
    requires p'.begun == p.begun && p'.completed == p.completed
    ensures p'.ledger == p.ledger ==> LedgerRight(p', a') && Balanced(p', a')
  {
    if p'.ledger == p.ledger {
      forall i: nat | Open(p', i)
        ensures Tracked(p', a', i)
      {
        assert Open(p, i) && Tracked(p, a, i);
      }
      forall name | name in p'.ledger.downloading
        ensures exists i: nat :: TrackedFor(p', name, i)
      {
        var i: nat :| TrackedFor(p, name, i);
        assert TrackedFor(p', name, i);
      }
      ReceivedStays(p, a, p', a', |p.files|);
    }
  }

  lemma StartLedgerIsRight(files: seq<FileInfo>, hardware: nat)
    requires DistinctNames(files)
    ensures LedgerInv(Start(files, hardware), Blank())
  {
    NothingReceived(Start(files, hardware), |files|);
  }

  lemma {:induction false} NothingReceived(p: Pool, n: nat)
    requires n <= |p.files| && p.completed == []
    ensures ReceivedIn(p, Blank(), n) == 0
  {
    if n > 0 {
      NothingReceived(p, n - 1);
    }
  }

  lemma {:induction false} RunKeepsLedgerInv(p: Pool, events: seq<Event>, a: Account)
    requires PoolInv(p) && LedgerInv(p, a) && Run(p, events).Some?
    ensures PoolInv(Run(p, events).value) && LedgerInv(Run(p, events).value, AccountOf(p, events, a))
    ensures Run(p, events).value.files == p.files && |Run(p, events).value.workers| == |p.workers|
    decreases |events|
  {
    if events != [] {
      StepKeepsSize(p, events[0]);
      hide PoolInv, LedgerInv, Step, Noted;
      StepKeepsPoolInv(p, events[0]);
      StepKeepsLedgerInv(p, a, events[0]);
      RunKeepsLedgerInv(Step(p, events[0]).value, events[1..], Noted(a, p, events[0]));
    }
  }

  /** Files in flight and finished files are files of the update, and no file is both. */
  ghost predicate DisjointSubsets(p: Pool) {
    && (forall f | f in p.ledger.downloaded :: f in p.ledger.total)
    && (forall name | name in p.ledger.downloading ::
          exists i: nat :: i < |p.ledger.total| && p.ledger.total[i].name == name && i !in p.completed)
    && (forall f | f in p.ledger.downloaded :: f.name !in p.ledger.downloading)
  }

  lemma LedgerRightIsDisjoint(p: Pool, a: Account)
    requires LedgerRight(p, a) && DistinctNames(p.files)
    ensures DisjointSubsets(p)
  {
    forall name | name in p.ledger.downloading
      ensures exists i: nat :: i < |p.ledger.total| && p.ledger.total[i].name == name && i !in p.completed
    {
      var i: nat :| TrackedFor(p, name, i);
      assert p.ledger.total[i].name == name;
    }
    forall f | f in p.ledger.downloaded
      ensures f in p.ledger.total && f.name !in p.ledger.downloading
    {
      var k :| 0 <= k < |p.completed| && p.ledger.downloaded[k] == f;
      if f.name in p.ledger.downloading {
        var i: nat :| TrackedFor(p, f.name, i);
        SameNameSameFile(p.files, i, p.completed[k]);
      }
    }
  }

  lemma SameNameSameFile(files: seq<FileInfo>, i: nat, j: nat)
    requires DistinctNames(files) && i < |files| && j < |files| && files[i].name == files[j].name
    ensures i == j
  {
  }

  /** What was last reported for a file is at most its size. */
  ghost predicate HonestReports(files: seq<FileInfo>, a: Account) {
    forall i | i in a.reports && i < |files| :: a.reports[i] <= files[i].size
  }

  /** With honest reports no more is there than there is to be, and everything once all is finished. */
  lemma {:induction false} ReceivedBound(p: Pool, a: Account, n: nat)
    requires n <= |p.files|
    ensures HonestReports(p.files, a) ==> ReceivedIn(p, a, n) <= SizeSum(p.files[..n])
    ensures (forall i: nat | i < n :: i in p.completed) ==> ReceivedIn(p, a, n) == SizeSum(p.files[..n])
  {
    if n > 0 {
      ReceivedBound(p, a, n - 1);
      assert p.files[..n] == p.files[..n - 1] + [p.files[n - 1]];
      SizeSumAppend(p.files[..n - 1], [p.files[n - 1]]);
    }
  }

  lemma NothingInFlight(p: Pool, a: Account)
    requires LedgerRight(p, a) && forall i: nat | i < |p.files| :: i in p.completed
    ensures p.ledger.downloading == map[]
  {
    forall name, i: nat
      ensures !TrackedFor(p, name, i)
    {
    }
    hide TrackedFor, Tracked;
    assert forall name :: name !in p.ledger.downloading;
  }

  /** In every run with distinct file names, until `done_update` has run: finished files and files in flight are
      disjoint parts of the update, every file in flight stands in the ledger with its size and the bytes last
      reported for it, the downloaded size is what those reports and the finished files come to, and `end_file`
      always finds its entry. As long as reports are honest, no more has been downloaded than the update holds.
      When `done_update` is about to run, nothing is in flight and downloaded size and count equal the totals;
      after it the ledger is empty. */
  lemma LedgerIsSafe(files: seq<FileInfo>, hardware: nat, events: seq<Event>)
    requires DistinctNames(files) && Run(Start(files, hardware), events).Some?
    ensures var p, a := Run(Start(files, hardware), events).value, AccountOf(Start(files, hardware), events, Blank());
            && !p.eraseFailed && p.files == files
            && (p.outcome == Finished ==> p.ledger == Ledger([], [], map[]))
            && (p.outcome != Finished ==>
                  && p.ledger.total == files
                  && DisjointSubsets(p)
                  && (forall i: nat | Open(p, i) :: Tracked(p, a, i))
                  && DownloadedSize(p.ledger) == ReceivedIn(p, a, |files|)
                  && (HonestReports(files, a) ==> DownloadedSize(p.ledger) <= TotalSize(p.ledger))
                  && (AllExited(p) && p.exception.None? ==>
                        && p.ledger.downloading == map[]
                        && |p.ledger.downloaded| == |files|
                        && DownloadedSize(p.ledger) == TotalSize(p.ledger)))
  {
    StartIsRight(files, hardware);
    StartLedgerIsRight(files, hardware);
    RunKeepsLedgerInv(Start(files, hardware), events, Blank());
    var p, a := Run(Start(files, hardware), events).value, AccountOf(Start(files, hardware), events, Blank());
    hide PoolInv, Run, AccountOf, Start, DownloadedSize, Tracked, DistinctNames;
    if p.outcome != Finished {
      LedgerRightIsDisjoint(p, a);
      ReceivedBound(p, a, |files|);
      assert p.files[..|files|] == p.files;
      if AllExited(p) && p.exception.None? {
        StartHasWorkers(files, hardware);
        QuietEndIsComplete(p);
        NothingInFlight(p, a);
      }
    }
  }

  lemma StartHasWorkers(files: seq<FileInfo>, hardware: nat)
    ensures |Start(files, hardware).workers| > 0
  {
  }
}
