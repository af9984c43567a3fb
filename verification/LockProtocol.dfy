/** Competing processes at one lock file and its registry record, as atomic steps
    (memvid/src/lockfile.rs, memvid/src/registry.rs). */
module LockProtocol {
  import opened Basics

  /** One call of `acquire` and the guard it may return. */
  type Process = nat

  datatype Phase =
    | Waiting                  // in the retry loop
    | Judged                   // has found the record stale and is about to take over
    | TakingOver               // has removed the record in a takeover, or tried to
    | Created                  // its create_new made the lock file
    | Writing                  // has truncated the record and is writing it for the first time
    | Undoing                  // that write failed; about to remove the lock file
    | Holding                  // its guard is live
    | Beating                  // its guard is live and is rewriting the record in a heartbeat
    | Dropping                 // dropping the guard: the record has been dealt with, the lock file not yet
    | Done(leftFile: bool)     // over; leftFile: its own lock file could not be removed
    | Crashed(ownedFile: bool) // died; ownedFile: its own lock file was still its to remove

  datatype Registry = NoRecord | Torn(writer: Process) | Written(writer: Process, heartbeat: int)

  /** The file is remembered with its creator. */
  datatype State = State(lockFile: Option<Process>, record: Registry, phases: map<Process, Phase>)

  const INITIAL: State := State(None, NoRecord, map[])

  function PhaseOf(s: State, p: Process): Phase {
    if p in s.phases then s.phases[p] else Waiting
  }

  datatype Step =
    | Create(p: Process)                  // create_new succeeds
    | Retry(p: Process)                   // create_new found a file, which may be gone again; the record is read
    | GiveUp(p: Process)                  // the timeout, an unreadable record, or another error
    | BeginRecord(p: Process)             // write_record opens and truncates
    | EndRecord(p: Process, now: int)     // write_record is through; the guard is returned
    | FailRecord(p: Process)              // write_record fails
    | Undo(p: Process, ok: bool)          // the lock file is removed again, if it can be
    | BeginBeat(p: Process)
    | EndBeat(p: Process, now: int)
    | FailBeat(p: Process)
    | DropRecord(p: Process, ok: bool)    // remove_record; its failure is ignored
    | DropFile(p: Process, ok: bool)      // remove_file; its failure is ignored
    | Crash(p: Process)
    | JudgeStale(p: Process, now: int)    // with force_stale: the record is absent or too old
    | TakeRecord(p: Process, ok: bool)    // with force_stale: remove_record; its failure is ignored
    | TakeFile(p: Process, ok: bool)      // with force_stale: remove_file, whoever made the file

  predicate IsStale(record: Registry, now: int, grace: nat) {
    record.NoRecord? || (record.Written? && now - record.heartbeat > grace)
  }

  predicate Enabled(s: State, step: Step, grace: nat) {
    var phase := PhaseOf(s, step.p);
    match step
    case Create(_) => phase.Waiting? && s.lockFile.None?
    case Retry(_) => phase.Waiting?
    case GiveUp(_) => phase.Waiting?
    case BeginRecord(_) => phase.Created?
    case EndRecord(_, _) => phase.Writing?
    case FailRecord(_) => phase.Created? || phase.Writing?
    case Undo(_, _) => phase.Undoing?
    case BeginBeat(_) => phase.Holding?
    case EndBeat(_, _) => phase.Beating?
    case FailBeat(_) => phase.Beating?
    case DropRecord(_, _) => phase.Holding?
    case DropFile(_, _) => phase.Dropping?
    case Crash(_) => !phase.Done? && !phase.Crashed?
    case JudgeStale(_, now) => phase.Waiting? && IsStale(s.record, now, grace)
    case TakeRecord(_, _) => phase.Judged?
    case TakeFile(_, _) => phase.TakingOver?
  }

  predicate Owning(phase: Phase) {
    phase.Created? || phase.Writing? || phase.Undoing? || phase.Holding? || phase.Beating? || phase.Dropping?
  }

  /** The process holds a guard that it has not begun to drop. */
  predicate Live(phase: Phase) {
    phase.Holding? || phase.Beating?
  }

  function Next(s: State, step: Step): State {
    var p := step.p;
    var phase := PhaseOf(s, p);
    match step
    case Create(_) => State(Some(p), s.record, s.phases[p := Created])
    case Retry(_) => s
    case GiveUp(_) => s.(phases := s.phases[p := Done(false)])
    case BeginRecord(_) => State(s.lockFile, Torn(p), s.phases[p := Writing])
    case EndRecord(_, now) => State(s.lockFile, Written(p, now), s.phases[p := Holding])
    case FailRecord(_) => s.(phases := s.phases[p := Undoing])
    case Undo(_, ok) => State(if ok then None else s.lockFile, s.record, s.phases[p := Done(!ok)])
    case BeginBeat(_) => State(s.lockFile, Torn(p), s.phases[p := Beating])
    case EndBeat(_, now) => State(s.lockFile, Written(p, now), s.phases[p := Holding])
    case FailBeat(_) => s.(phases := s.phases[p := Holding])
    case DropRecord(_, ok) => State(s.lockFile, if ok then NoRecord else s.record, s.phases[p := Dropping])
    case DropFile(_, ok) => State(if ok then None else s.lockFile, s.record, s.phases[p := Done(!ok)])
    case Crash(_) => s.(phases := s.phases[p := Crashed(Owning(phase))])
    case JudgeStale(_, _) => s.(phases := s.phases[p := Judged])
    case TakeRecord(_, ok) => State(s.lockFile, if ok then NoRecord else s.record, s.phases[p := TakingOver])
    case TakeFile(_, ok) => State(if ok then None else s.lockFile, s.record, s.phases[p := if ok then Waiting else Done(false)])
  }

  /** The steps can be taken one after the other. */
  ghost predicate IsRun(s: State, steps: seq<Step>, grace: nat)
    decreases |steps|
  {
    steps == [] || (Enabled(s, steps[0], grace) && IsRun(Next(s, steps[0]), steps[1..], grace))
  }

  ghost function After(s: State, steps: seq<Step>): State
    decreases |steps|
  {
    if steps == [] then s else After(Next(s, steps[0]), steps[1..])
  }

  // ---------- The invariant ----------

  /** The lock file a process made is still its responsibility, or was when it died or failed to remove it. */
  predicate Answerable(phase: Phase) {
    Owning(phase) || phase == Done(true) || phase == Crashed(true)
  }

  /** The lock file belongs to the process that owns it, if one does, and was made by one that never removed it. */
  ghost predicate FileIsOwned(s: State) {
    && (forall p: Process :: Owning(PhaseOf(s, p)) ==> s.lockFile == Some(p))
    && (s.lockFile.Some? ==> Answerable(PhaseOf(s, s.lockFile.value)))
  }

  /** A live guard's record is there and its own; one being written is its writer's. */
  ghost predicate RecordIsOwn(s: State) {
    && (forall p: Process :: PhaseOf(s, p).Holding? ==> !s.record.NoRecord? && s.record.writer == p)
    && (forall p: Process :: PhaseOf(s, p).Writing? || PhaseOf(s, p).Beating? ==> s.record == Torn(p))
  }

  ghost predicate Safe(s: State) {
    FileIsOwned(s) && RecordIsOwn(s)
  }

  /** Without takeovers: the lock file exists EXACTLY while its creator has not removed it. */
  ghost predicate FileIsExact(s: State) {
    forall p: Process :: Answerable(PhaseOf(s, p)) <==> s.lockFile == Some(p)
  }

  predicate IsTakeover(step: Step) {
    step.TakeRecord? || step.TakeFile?
  }

  ghost predicate NoTakeovers(steps: seq<Step>) {
    forall i :: 0 <= i < |steps| ==> !IsTakeover(steps[i])
  }

  /** A takeover is careful if, at the moment of removal, no process owns the lock file. */
  ghost predicate Careful(s: State, step: Step) {
    IsTakeover(step) ==> forall q: Process :: !Owning(PhaseOf(s, q))
  }

  ghost predicate CarefulRun(s: State, steps: seq<Step>)
    decreases |steps|
  {
    steps == [] || (Careful(s, steps[0]) && CarefulRun(Next(s, steps[0]), steps[1..]))
  }

  lemma PhaseAfter(s: State, step: Step, q: Process)
    ensures q != step.p ==> PhaseOf(Next(s, step), q) == PhaseOf(s, q)
  {
  }

  lemma StepKeepsFile(s: State, step: Step, grace: nat)
    requires Safe(s) && Enabled(s, step, grace) && Careful(s, step)
    ensures FileIsOwned(Next(s, step))
  {
    var t := Next(s, step);
    forall p: Process | Owning(PhaseOf(t, p)) ensures t.lockFile == Some(p) {
      PhaseAfter(s, step, p);
    }
    if t.lockFile.Some? {
      PhaseAfter(s, step, t.lockFile.value);
    }
  }

  lemma StepKeepsRecord(s: State, step: Step, grace: nat)
    requires Safe(s) && Enabled(s, step, grace) && Careful(s, step)
    ensures RecordIsOwn(Next(s, step))
  {
    var t := Next(s, step);
    forall p: Process | Live(PhaseOf(t, p)) || PhaseOf(t, p).Writing?
      ensures !t.record.NoRecord? && t.record.writer == p && (!PhaseOf(t, p).Holding? ==> t.record == Torn(p))
    {
      PhaseAfter(s, step, p);
    }
  }

  lemma StepKeepsExact(s: State, step: Step, grace: nat)
    requires Safe(s) && FileIsExact(s) && Enabled(s, step, grace) && !IsTakeover(step)
    ensures FileIsExact(Next(s, step))
  {
    var t := Next(s, step);
    forall p: Process ensures Answerable(PhaseOf(t, p)) <==> t.lockFile == Some(p) {
      PhaseAfter(s, step, p);
      assert Answerable(PhaseOf(s, p)) <==> s.lockFile == Some(p);
      assert Answerable(PhaseOf(s, step.p)) <==> s.lockFile == Some(step.p);
    }
  }

  lemma {:induction false} RunKeepsSafe(s: State, steps: seq<Step>, grace: nat)
    requires Safe(s) && IsRun(s, steps, grace) && CarefulRun(s, steps)
    ensures Safe(After(s, steps))
    decreases |steps|
  {
    if steps != [] {
      StepKeepsFile(s, steps[0], grace);
      StepKeepsRecord(s, steps[0], grace);
      RunKeepsSafe(Next(s, steps[0]), steps[1..], grace);
    }
  }

  lemma {:induction false} RunKeepsExact(s: State, steps: seq<Step>, grace: nat)
    requires Safe(s) && FileIsExact(s) && IsRun(s, steps, grace) && NoTakeovers(steps)
    ensures CarefulRun(s, steps) && FileIsExact(After(s, steps))
    decreases |steps|
  {
    if steps != [] {
      assert !IsTakeover(steps[0]);
      StepKeepsFile(s, steps[0], grace);
      StepKeepsRecord(s, steps[0], grace);
      StepKeepsExact(s, steps[0], grace);
      assert forall i :: 0 <= i < |steps[1..]| ==> steps[1..][i] == steps[i + 1];
      RunKeepsExact(Next(s, steps[0]), steps[1..], grace);
    }
  }

  // ---------- Safety over every run ----------

  /** With force_stale off: in every state that any interleaving of calls, heartbeats, drops, failures and
      crashes can reach, at most one guard is live, its record is its own, and the lock file exists exactly
      while its creator has not removed it. */
  lemma LockSafety(steps: seq<Step>, grace: nat, p: Process, q: Process)
    requires IsRun(INITIAL, steps, grace) && NoTakeovers(steps)
    ensures var s := After(INITIAL, steps);
      && (Live(PhaseOf(s, p)) && Live(PhaseOf(s, q)) ==> p == q)
      && (Live(PhaseOf(s, p)) ==> !s.record.NoRecord? && s.record.writer == p && s.lockFile == Some(p))
      && (s.lockFile == Some(p) <==> Answerable(PhaseOf(s, p)))
  {
    RunKeepsExact(INITIAL, steps, grace);
    RunKeepsSafe(INITIAL, steps, grace);
  }

  /** While a guard is live, no step of another process touches its record, its lock file or its phase. */
  lemma HolderIsUndisturbed(s: State, step: Step, grace: nat, holder: Process)
    requires Safe(s) && Enabled(s, step, grace) && Careful(s, step) && Live(PhaseOf(s, holder)) && step.p != holder
    ensures var t := Next(s, step);
      t.record == s.record && t.lockFile == s.lockFile == Some(holder) && PhaseOf(t, holder) == PhaseOf(s, holder)
  {
    PhaseAfter(s, step, holder);
    assert Owning(PhaseOf(s, holder));
    assert Owning(PhaseOf(s, step.p)) ==> s.lockFile == Some(step.p);
  }

  // ---------- Putting runs together ----------

  lemma NoSteps(s: State, grace: nat)
    ensures IsRun(s, [], grace) && After(s, []) == s
  {
  }

  lemma RunStep(s: State, step: Step, rest: seq<Step>, grace: nat)
    requires Enabled(s, step, grace) && IsRun(Next(s, step), rest, grace)
    ensures var steps := [step] + rest; IsRun(s, steps, grace) && After(s, steps) == After(Next(s, step), rest)
  {
    assert ([step] + rest)[1..] == rest;
  }

  lemma {:induction false} RunConcat(s: State, a: seq<Step>, b: seq<Step>, grace: nat)
    requires IsRun(s, a, grace) && IsRun(After(s, a), b, grace)
    ensures IsRun(s, a + b, grace) && After(s, a + b) == After(After(s, a), b)
    decreases |a|
  {
    if a == [] {
      assert a + b == b;
    } else {
      RunConcat(Next(s, a[0]), a[1..], b, grace);
      assert a + b == [a[0]] + (a[1..] + b);
      RunStep(s, a[0], a[1..] + b, grace);
    }
  }

  /** The steps of one process that nobody disturbs, up to its guard. */
  function ToGuard(phase: Phase, p: Process): seq<Step> {
    match phase
    case Waiting => [Create(p)] + ([BeginRecord(p)] + [EndRecord(p, 0)])
    case Created => [BeginRecord(p)] + [EndRecord(p, 0)]
    case Writing => [EndRecord(p, 0)]
    case _ => []
  }

  /** Only process p has moved. */
  ghost predicate OnlyMoved(s: State, t: State, p: Process) {
    forall q: Process :: q != p ==> PhaseOf(t, q) == PhaseOf(s, q)
  }

  lemma GuardIsReached(s: State, p: Process, grace: nat)
    requires var phase := PhaseOf(s, p);
      (phase.Waiting? && s.lockFile.None?) || phase.Created? || phase.Writing? || Live(phase)
    ensures var steps := ToGuard(PhaseOf(s, p), p);
      var t := After(s, steps);
      && IsRun(s, steps, grace) && NoTakeovers(steps)
      && Live(PhaseOf(t, p)) && OnlyMoved(s, t, p)
      && t.lockFile == if PhaseOf(s, p).Waiting? then Some(p) else s.lockFile
  {
    hide IsRun, After;
    NoSteps(s, grace);
    var phase := PhaseOf(s, p);
    if !Live(phase) {
      var s1 := if phase.Waiting? then Next(s, Create(p)) else s;
      var s2 := if phase.Writing? then s1 else Next(s1, BeginRecord(p));
      NoSteps(Next(s2, EndRecord(p, 0)), grace);
      assert [EndRecord(p, 0)] + [] == [EndRecord(p, 0)];
      RunStep(s2, EndRecord(p, 0), [], grace);
      if !phase.Writing? {
        RunStep(s1, BeginRecord(p), [EndRecord(p, 0)], grace);
        if phase.Waiting? {
          RunStep(s, Create(p), [BeginRecord(p)] + [EndRecord(p, 0)], grace);
        }
      }
    }
  }

  ghost predicate IsAbove(r: Process, used: set<Process>) {
    forall p :: p in used ==> p < r
  }

  lemma {:induction false} FreshProcess(used: set<Process>)
    ensures exists r: Process :: IsAbove(r, used)
  {
    if used == {} {
      assert IsAbove(0, used);
    } else {
      var p :| p in used;
      FreshProcess(used - {p});
      var q: Process :| IsAbove(q, used - {p});
      assert forall x :: x in used ==> x == p || x in used - {p};
      assert IsAbove(if p < q then q else p + 1, used);
    }
  }

  // ---------- Takeovers: what force_stale costs ----------

  ghost predicate AtMostOneLive(s: State) {
    forall p: Process, q: Process :: Live(PhaseOf(s, p)) && Live(PhaseOf(s, q)) ==> p == q
  }

  lemma SafeMeansOneLive(s: State)
    requires Safe(s)
    ensures AtMostOneLive(s)
  {
  }

  /** With force_stale on, mutual exclusion survives every run in which each removal happens while no process
      owns the lock file. */
  lemma CarefulTakeoversAreSafe(steps: seq<Step>, grace: nat)
    requires IsRun(INITIAL, steps, grace) && CarefulRun(INITIAL, steps)
    ensures AtMostOneLive(After(INITIAL, steps))
  {
    RunKeepsSafe(INITIAL, steps, grace);
    SafeMeansOneLive(After(INITIAL, steps));
  }

  lemma {:induction false} NoTakeoversIsCareful(s: State, steps: seq<Step>)
    requires NoTakeovers(steps)
    ensures CarefulRun(s, steps)
    decreases |steps|
  {
    if steps != [] {
      assert forall i :: 0 <= i < |steps[1..]| ==> steps[1..][i] == steps[i + 1];
      NoTakeoversIsCareful(Next(s, steps[0]), steps[1..]);
    }
  }

  /** After process p has removed the lock file, a run without further takeovers leads to two live guards. */
  ghost predicate Breaks(s: State, p: Process, steps: seq<Step>, grace: nat)
    requires PhaseOf(s, p).TakingOver?
  {
    var t := Next(s, TakeFile(p, true));
    NoTakeovers(steps) && IsRun(t, steps, grace) && !AtMostOneLive(After(t, steps))
  }

  /** An owner that has, or is about to have, a guard keeps it beside the one that the taker gets. */
  lemma TakenFromGuard(s: State, p: Process, q: Process, grace: nat)
    requires PhaseOf(s, p).TakingOver? && Owning(PhaseOf(s, q)) && !PhaseOf(s, q).Undoing? && !PhaseOf(s, q).Dropping?
    ensures exists steps :: Breaks(s, p, steps, grace)
  {
    var t := Next(s, TakeFile(p, true));
    PhaseAfter(s, TakeFile(p, true), q);
    var a, b := ToGuard(PhaseOf(t, q), q), ToGuard(Waiting, p);
    GuardIsReached(t, q, grace);
    var u := After(t, a);
    assert PhaseOf(u, p) == PhaseOf(t, p);
    GuardIsReached(u, p, grace);
    RunConcat(t, a, b, grace);
    var v := After(u, b);
    assert PhaseOf(v, q) == PhaseOf(u, q);
    assert Live(PhaseOf(v, p)) && Live(PhaseOf(v, q)) && p != q;
    assert Breaks(s, p, a + b, grace);
  }

  /** An owner that is about to remove its lock file removes the taker's instead, and lets a third process in. */
  lemma TakenFromLeaver(s: State, p: Process, q: Process, grace: nat)
    requires PhaseOf(s, p).TakingOver? && (PhaseOf(s, q).Undoing? || PhaseOf(s, q).Dropping?)
    ensures exists steps :: Breaks(s, p, steps, grace)
  {
    var t := Next(s, TakeFile(p, true));
    PhaseAfter(s, TakeFile(p, true), q);
    FreshProcess(s.phases.Keys);
    var r: Process :| IsAbove(r, s.phases.Keys);
    assert r !in s.phases;
    var remove := if PhaseOf(s, q).Undoing? then Undo(q, true) else DropFile(q, true);
    var a, c := ToGuard(Waiting, p), ToGuard(Waiting, r);
    GuardIsReached(t, p, grace);
    var u := After(t, a);
    assert PhaseOf(u, q) == PhaseOf(t, q) && PhaseOf(u, r) == PhaseOf(t, r);
    var v := Next(u, remove);
    PhaseAfter(u, remove, p);
    PhaseAfter(u, remove, r);
    GuardIsReached(v, r, grace);
    RunStep(u, remove, c, grace);
    RunConcat(t, a, [remove] + c, grace);
    var w := After(v, c);
    assert PhaseOf(w, p) == PhaseOf(v, p);
    assert Live(PhaseOf(w, p)) && Live(PhaseOf(w, r)) && p != r;
    assert Breaks(s, p, a + ([remove] + c), grace);
  }

  /** In a safe state, removing the lock file in a takeover can lead to two live guards EXACTLY when some process
      owns the file - whatever that process is doing. */
  lemma TakeoverBreaksIff(s: State, p: Process, grace: nat)
    requires Safe(s) && PhaseOf(s, p).TakingOver?
    ensures (exists steps :: Breaks(s, p, steps, grace)) <==> exists q: Process :: Owning(PhaseOf(s, q))
  {
    if q: Process :| Owning(PhaseOf(s, q)) {
      if PhaseOf(s, q).Undoing? || PhaseOf(s, q).Dropping? {
        TakenFromLeaver(s, p, q, grace);
      } else {
        TakenFromGuard(s, p, q, grace);
      }
    } else {
      var t := Next(s, TakeFile(p, true));
      StepKeepsFile(s, TakeFile(p, true), grace);
      StepKeepsRecord(s, TakeFile(p, true), grace);
      forall steps: seq<Step> ensures !Breaks(s, p, steps, grace) {
        if NoTakeovers(steps) && IsRun(t, steps, grace) {
          NoTakeoversIsCareful(t, steps);
          RunKeepsSafe(t, steps, grace);
          SafeMeansOneLive(After(t, steps));
        }
      }
    }
  }

  /** The check that precedes a takeover does not prevent that, crash or no crash: between creating the lock
      file and writing the record, the record is absent and counts as stale. */
  lemma StaleCheckIsNotEnough(grace: nat)
    ensures exists steps: seq<Step> ::
      && IsRun(INITIAL, steps, grace)
      && PhaseOf(After(INITIAL, steps), 0).Holding? && PhaseOf(After(INITIAL, steps), 1).TakingOver?
      && (forall i :: 0 <= i < |steps| ==> !steps[i].Crash?)
  {
    hide IsRun, After;
    var steps := [Create(0)] + ([JudgeStale(1, 0)] + GuardThenTakeover());
    var s1 := Next(INITIAL, Create(0));
    GuardThenTakeoverRuns(Next(s1, JudgeStale(1, 0)), grace);
    RunStep(s1, JudgeStale(1, 0), GuardThenTakeover(), grace);
    RunStep(INITIAL, Create(0), [JudgeStale(1, 0)] + GuardThenTakeover(), grace);
    assert IsRun(INITIAL, steps, grace);
  }

  function GuardThenTakeover(): seq<Step> {
    [BeginRecord(0)] + ([EndRecord(0, 0)] + [TakeRecord(1, true)])
  }

  /** From the moment after process 1 has judged a lock file stale that process 0 has just created. */
  lemma GuardThenTakeoverRuns(s: State, grace: nat)
    requires PhaseOf(s, 0).Created? && PhaseOf(s, 1).Judged?
    ensures var t := After(s, GuardThenTakeover());
      IsRun(s, GuardThenTakeover(), grace) && PhaseOf(t, 0).Holding? && PhaseOf(t, 1).TakingOver?
  {
    hide IsRun, After;
    var s1 := Next(s, BeginRecord(0));
    var s2 := Next(s1, EndRecord(0, 0));
    NoSteps(Next(s2, TakeRecord(1, true)), grace);
    assert [TakeRecord(1, true)] + [] == [TakeRecord(1, true)];
    RunStep(s2, TakeRecord(1, true), [], grace);
    RunStep(s1, EndRecord(0, 0), [TakeRecord(1, true)], grace);
    RunStep(s, BeginRecord(0), [EndRecord(0, 0)] + [TakeRecord(1, true)], grace);
  }

  /** So two guards can be live at once. */
  lemma TwoGuards(grace: nat)
    ensures exists steps: seq<Step> :: IsRun(INITIAL, steps, grace) && !AtMostOneLive(After(INITIAL, steps))
  {
    hide IsRun, After;
    StaleCheckIsNotEnough(grace);
    var first: seq<Step> :|
      && IsRun(INITIAL, first, grace)
      && PhaseOf(After(INITIAL, first), 0).Holding? && PhaseOf(After(INITIAL, first), 1).TakingOver?;
    var s := After(INITIAL, first);
    TakenFromGuard(s, 1, 0, grace);
    var more: seq<Step> :| Breaks(s, 1, more, grace);
    RunStep(s, TakeFile(1, true), more, grace);
    RunConcat(INITIAL, first, [TakeFile(1, true)] + more, grace);
    assert IsRun(INITIAL, first + ([TakeFile(1, true)] + more), grace);
  }

  /** The runs that the option allows. */
  ghost predicate IsRunWith(forceStale: bool, steps: seq<Step>, grace: nat) {
    IsRun(INITIAL, steps, grace) && (forceStale || NoTakeovers(steps))
  }

  /** Every run keeps mutual exclusion EXACTLY when force_stale is off. */
  lemma ForceStaleDecides(forceStale: bool, grace: nat)
    ensures (forall steps :: IsRunWith(forceStale, steps, grace) ==> AtMostOneLive(After(INITIAL, steps))) <==> !forceStale
  {
    if forceStale {
      TwoGuards(grace);
      var steps: seq<Step> :| IsRun(INITIAL, steps, grace) && !AtMostOneLive(After(INITIAL, steps));
      assert IsRunWith(forceStale, steps, grace);
    } else {
      forall steps | IsRunWith(forceStale, steps, grace) ensures AtMostOneLive(After(INITIAL, steps)) {
        NoTakeoversIsCareful(INITIAL, steps);
        CarefulTakeoversAreSafe(steps, grace);
      }
    }
  }
}
