/** The run that appends events and the poller that streams them, as interleaved steps (backend/server_streaming.py). */
module Streaming {
  import opened Basics

  /** An event of the run's log; its contents do not matter here. */
  datatype Event = Event(id: string, eventType: string, payload: string)

  /** What the poller yields. `Status` and `StepEvent` carry the running step number. */
  datatype Message = Status(step: nat) | StepEvent(step: nat, event: Event) | Failure(reason: string) | Finished

  /** Where the poller is. Between any two of its steps the run may go on. */
  datatype Position =
    | Checking   // about to test whether the run is done
    | Noticing   // has slept; about to look for the run id
    | Reading    // about to read new events, if it knows the run
    | Emitting   // yielding the events read in the loop
    | Ending     // the run is done; about to look at its error
    | LastRead   // about to read what was appended since the last poll
    | LastEmit   // yielding the events of the last read
    | Closed

  datatype State = State(
    // the run
    log: seq<Event>, runId: bool, error: Option<string>, done: bool,
    // the poller
    position: Position, knowsRun: bool, cursor: nat, step: nat, pending: seq<Event>, output: seq<Message>)

  const INITIAL: State := State([], false, None, false, Checking, false, 0, 1, [], [Status(0)])

  datatype Action =
    | Append(event: Event) // the run logs an event
    | SetRunId             // the run's id becomes known: on creation, and again on success
    | SetError(reason: string)
    | SetDone              // the run's thread ends, having set its id or its error
    | Poll                 // the poller takes its next step
    | Disconnect           // the client goes away

  predicate Enabled(s: State, a: Action) {
    match a
    case Append(_) => !s.done && s.error.None?
    case SetRunId => !s.done && s.error.None?
    case SetError(_) => !s.done && s.error.None?
    case SetDone => !s.done
    case Poll => !s.position.Closed?
    case Disconnect => !s.position.Closed?
  }

  /** The poller tests the error text for truth: a failure whose text is empty counts as none. */
  predicate HasFailed(s: State) {
    s.error.Some? && s.error.value != ""
  }

  function Emit(s: State, m: Message): State {
    s.(output := s.output + [m])
  }

  function PollStep(s: State): State {
    match s.position
    case Checking => s.(position := if s.done then Ending else Noticing)
    case Noticing =>
      if !s.knowsRun && s.runId then Emit(s, Status(s.step)).(knowsRun := true, step := s.step + 1, position := Reading)
      else s.(position := Reading)
    case Reading =>
      if s.knowsRun then ReadEvents(s).(position := Emitting) else s.(position := Checking)
    case Emitting =>
      if s.pending == [] then s.(position := Checking) else EmitPending(s)
    case Ending =>
      if HasFailed(s) then Emit(s, Failure(s.error.value)).(position := Closed)
      else if s.runId then s.(knowsRun := true, position := LastRead)
      else Emit(s, Failure("Run failed to start.")).(position := Closed)
    case LastRead => ReadEvents(s).(position := LastEmit)
    case LastEmit =>
      if s.pending == [] then Emit(s, Finished).(position := Closed) else EmitPending(s)
    case Closed => s
  }

  /** `read_events` returns what was appended behind the cursor, and the new cursor. */
  function ReadEvents(s: State): State {
    if s.cursor <= |s.log| then s.(pending := s.log[s.cursor..], cursor := |s.log|) else s.(pending := [])
  }

  function EmitPending(s: State): State
    requires s.pending != []
  {
    Emit(s, StepEvent(s.step, s.pending[0])).(step := s.step + 1, pending := s.pending[1..])
  }

  function Next(s: State, a: Action): State {
    match a
    case Append(e) => s.(log := s.log + [e])
    case SetRunId => s.(runId := true)
    case SetError(reason) => s.(error := Some(reason))
    case SetDone => s.(done := true)
    case Poll => PollStep(s)
    case Disconnect => s.(position := Closed)
  }

  ghost predicate IsRun(s: State, actions: seq<Action>)
    decreases |actions|
  {
    actions == [] || (Enabled(s, actions[0]) && IsRun(Next(s, actions[0]), actions[1..]))
  }

  ghost function After(s: State, actions: seq<Action>): State
    decreases |actions|
  {
    if actions == [] then s else After(Next(s, actions[0]), actions[1..])
  }

  // ---------- What the output says ----------

  /** The events streamed, in order. */
  function EventsOf(output: seq<Message>): seq<Event> {
    if output == [] then []
    else
      var n := |output| - 1;
      EventsOf(output[..n]) + if output[n].StepEvent? then [output[n].event] else []
  }

  /** The step numbers streamed, in order. */
  function StepsOf(output: seq<Message>): seq<nat> {
    if output == [] then []
    else
      var n := |output| - 1;
      StepsOf(output[..n]) + if output[n].Status? || output[n].StepEvent? then [output[n].step] else []
  }

  predicate IsTerminal(m: Message) {
    m.Failure? || m.Finished?
  }

  function UpTo(n: nat): (r: seq<nat>)
    ensures |r| == n
  {
    seq(n, i => i)
  }

  /** What every reachable state satisfies. */
  ghost predicate Inv(s: State) {
    // what was streamed and what is still to be yielded make up the log up to the cursor
    && s.cursor <= |s.log|
    && EventsOf(s.output) + s.pending == s.log[..s.cursor]
    // the steps streamed are 0, 1, 2, ...
    && StepsOf(s.output) == UpTo(s.step)
    // nothing is pending outside the two emitting positions
    && (s.pending != [] ==> s.position.Emitting? || s.position.LastEmit? || s.position.Closed?)
    // the final read happens after the run has ended well
    && (s.position.Ending? || s.position.LastRead? || s.position.LastEmit? ==> s.done)
    && (s.position.LastRead? || s.position.LastEmit? ==> !HasFailed(s) && s.runId)
    && (s.position.LastEmit? ==> s.cursor == |s.log|)
    // a terminal message comes last, and a stream that finished is complete
    && (forall i :: 0 <= i < |s.output| && IsTerminal(s.output[i]) ==> i == |s.output| - 1 && s.position.Closed?)
    && (Finished in s.output ==> s.done && !HasFailed(s) && s.pending == [] && s.cursor == |s.log|)
    && (forall reason :: Failure(reason) in s.output ==> s.done && (s.error == Some(reason) || (!HasFailed(s) && reason == "Run failed to start.")))
  }

  lemma EmitExtends(output: seq<Message>, m: Message)
    ensures EventsOf(output + [m]) == EventsOf(output) + if m.StepEvent? then [m.event] else []
    ensures StepsOf(output + [m]) == StepsOf(output) + if m.Status? || m.StepEvent? then [m.step] else []
  {
    assert (output + [m])[..|output|] == output;
  }

  lemma UpToGrows(n: nat)
    ensures UpTo(n) + [n] == UpTo(n + 1)
  {
  }

  lemma RunStepKeepsInv(s: State, a: Action)
    requires Inv(s) && Enabled(s, a) && !a.Poll?
    ensures Inv(Next(s, a))
  {
    if a.Append? {
      assert (s.log + [a.event])[..s.cursor] == s.log[..s.cursor];
    }
  }

  /** Yielding the first pending event moves it from what is pending to what was streamed. */
  lemma EmitPendingKeepsInv(s: State)
    requires Inv(s) && s.pending != [] && !s.position.Closed?
    ensures Inv(EmitPending(s))
  {
    hide EventsOf, StepsOf, UpTo;
    EmitExtends(s.output, StepEvent(s.step, s.pending[0]));
    UpToGrows(s.step);
    assert (EventsOf(s.output) + [s.pending[0]]) + s.pending[1..] == EventsOf(s.output) + s.pending;
  }

  lemma ReadKeepsInv(s: State, next: Position)
    requires Inv(s) && s.pending == [] && (s.position.Reading? || s.position.LastRead?)
    requires next == if s.position.Reading? then Emitting else LastEmit
    ensures Inv(ReadEvents(s).(position := next))
  {
    assert EventsOf(s.output) + [] == EventsOf(s.output);
    assert s.log[..s.cursor] + s.log[s.cursor..] == s.log == s.log[..|s.log|];
  }

  lemma EndKeepsInv(s: State, m: Message)
    requires Inv(s) && s.pending == [] && s.done && !s.position.Closed?
    requires m.Finished? ==> !HasFailed(s) && s.cursor == |s.log|
    requires m.Failure? ==> s.error == Some(m.reason) || (!HasFailed(s) && m.reason == "Run failed to start.")
    requires IsTerminal(m)
    ensures Inv(Emit(s, m).(position := Closed))
  {
    EmitExtends(s.output, m);
    var t := Emit(s, m).(position := Closed);
    forall reason | Failure(reason) in t.output ensures Failure(reason) in s.output || m == Failure(reason) {
    }
  }

  /** A step that only changes the poller's position. */
  lemma MoveKeepsInv(s: State, next: Position)
    requires Inv(s) && !s.position.Closed? && s.pending == []
    requires next.Ending? ==> s.done
    requires next.LastRead? ==> s.done && !HasFailed(s) && s.runId
    requires !next.LastEmit? && !next.Closed?
    ensures Inv(s.(position := next)) && Inv(s.(knowsRun := true, position := next))
  {
  }

  lemma NoticeKeepsInv(s: State)
    requires Inv(s) && s.position.Noticing?
    ensures Inv(Emit(s, Status(s.step)).(knowsRun := true, step := s.step + 1, position := Reading))
  {
    EmitExtends(s.output, Status(s.step));
    UpToGrows(s.step);
  }

  lemma InvMeans(s: State)
    requires Inv(s)
    ensures s.cursor <= |s.log|
    ensures s.pending != [] ==> s.position.Emitting? || s.position.LastEmit? || s.position.Closed?
    ensures s.position.Ending? || s.position.LastRead? || s.position.LastEmit? ==> s.done
    ensures s.position.LastRead? || s.position.LastEmit? ==> !HasFailed(s) && s.runId
    ensures s.position.LastEmit? ==> s.cursor == |s.log|
  {
  }

  lemma PollKeepsInv(s: State)
    requires Inv(s) && !s.position.Closed?
    ensures Inv(PollStep(s))
  {
    hide Inv, ReadEvents, EmitPending, Emit;
    InvMeans(s);
    match s.position
    case Checking => MoveKeepsInv(s, if s.done then Ending else Noticing);
    case Noticing =>
      if !s.knowsRun && s.runId {
        NoticeKeepsInv(s);
      } else {
        MoveKeepsInv(s, Reading);
      }
    case Reading =>
      if s.knowsRun {
        ReadKeepsInv(s, Emitting);
      } else {
        MoveKeepsInv(s, Checking);
      }
    case Emitting =>
      if s.pending != [] {
        EmitPendingKeepsInv(s);
      } else {
        MoveKeepsInv(s, Checking);
      }
    case Ending =>
      if HasFailed(s) {
        EndKeepsInv(s, Failure(s.error.value));
      } else if s.runId {
        MoveKeepsInv(s, LastRead);
      } else {
        EndKeepsInv(s, Failure("Run failed to start."));
      }
    case LastRead =>
      ReadKeepsInv(s, LastEmit);
    case LastEmit =>
      if s.pending != [] {
        EmitPendingKeepsInv(s);
      } else {
        EndKeepsInv(s, Finished);
      }
  }

  lemma {:induction false} RunKeepsInv(s: State, actions: seq<Action>)
    requires Inv(s) && IsRun(s, actions)
    ensures Inv(After(s, actions))
    decreases |actions|
  {
    hide Inv, Next, Enabled;
    if actions != [] {
      if actions[0].Poll? {
        PollStepIsNext(s);
        PollKeepsInv(s);
      } else {
        RunStepKeepsInv(s, actions[0]);
      }
      RunKeepsInv(Next(s, actions[0]), actions[1..]);
    }
  }

  lemma PollStepIsNext(s: State)
    ensures Next(s, Poll) == PollStep(s) && (Enabled(s, Poll) ==> !s.position.Closed?)
  {
  }

  // ---------- Exactly-once delivery ----------

  /** In every state that any interleaving of the run and the poller can reach: the events streamed are a prefix
      of the log, in order and without repetition; the step numbers are 0, 1, 2, ...; a finished stream has
      delivered the whole log of a run that ended without an error text; and nothing follows a terminal message. */
  lemma ExactlyOnce(actions: seq<Action>)
    requires IsRun(INITIAL, actions)
    ensures var s := After(INITIAL, actions);
      && EventsOf(s.output) <= s.log
      && StepsOf(s.output) == UpTo(|StepsOf(s.output)|)
      && (Finished in s.output ==> EventsOf(s.output) == s.log && s.done && !HasFailed(s))
      && (forall i :: 0 <= i < |s.output| - 1 ==> !IsTerminal(s.output[i]))
  {
    InitialInv();
    RunKeepsInv(INITIAL, actions);
    var s := After(INITIAL, actions);
    hide IsRun, After;
    assert s.log[..|s.log|] == s.log;
    assert EventsOf(s.output) + [] == EventsOf(s.output);
    assert EventsOf(s.output) <= EventsOf(s.output) + s.pending;
    assert s.log[..s.cursor] <= s.log;
  }

  lemma InitialInv()
    ensures Inv(INITIAL)
  {
    EmitExtends([], Status(0));
    assert [] + [Status(0)] == [Status(0)];
    assert StepsOf([]) == [] && EventsOf([]) == [];
    assert UpTo(1) == [0];
  }

  /** Once the run is over, polling alone ends the stream after at most this many steps. */
  function PollsLeft(s: State): nat {
    match s.position
    case Closed => 0
    case LastEmit => |s.pending| + 1
    case LastRead => |s.log| + 2
    case Ending => |s.log| + 3
    case Checking => |s.log| + 4
    case Emitting => |s.log| + 5 + |s.pending|
    case Reading => 2 * |s.log| + 6
    case Noticing => 2 * |s.log| + 7
  }

  ghost function Polled(s: State, n: nat): State
    decreases n
  {
    if n == 0 then s else Polled(PollStep(s), n - 1)
  }

  /** The run is over, and the stream is not. */
  ghost predicate Winding(s: State) {
    Inv(s) && !s.position.Closed? && s.done
  }

  /** How the stream of a run that is over has to end: with its whole log and `Finished` if it has an id and no
      error text, and otherwise with a failure message and no `Finished`, after the events up to the cursor. */
  ghost predicate EndsRight(s: State, t: State) {
    && t.position.Closed? && t.output != []
    && t.cursor <= |s.log| && EventsOf(t.output) == s.log[..t.cursor]
    && if HasFailed(s) then t.output[|t.output| - 1] == Failure(s.error.value) && Finished !in t.output
       else if s.runId then t.output[|t.output| - 1] == Finished && EventsOf(t.output) == s.log
       else t.output[|t.output| - 1] == Failure("Run failed to start.") && Finished !in t.output
  }

  lemma PollKeepsRun(s: State)
    ensures var t := PollStep(s); t.log == s.log && t.error == s.error && t.runId == s.runId && t.done == s.done
  {
  }

  lemma PollsDwindle(s: State)
    requires !s.position.Closed? && s.done && s.cursor <= |s.log|
    requires s.pending != [] ==> s.position.Emitting? || s.position.LastEmit?
    ensures PollsLeft(PollStep(s)) < PollsLeft(s)
  {
  }

  /** Every step of the poller brings the end nearer, or is the right end. */
  lemma PollProgress(s: State)
    requires Winding(s)
    ensures var t := PollStep(s);
      PollsLeft(t) < PollsLeft(s) && if t.position.Closed? then EndsRight(s, t) else Winding(t)
  {
    hide Inv, EventsOf, PollsLeft, PollStep;
    PollKeepsInv(s);
    PollKeepsRun(s);
    InvMeans(s);
    PollsDwindle(s);
    NotFinishedYet(s);
    FinishedIsComplete(PollStep(s));
    PollsLastMessage(s);
    DeliveredUpToCursor(PollStep(s));
  }

  lemma DeliveredUpToCursor(s: State)
    requires Inv(s)
    ensures s.cursor <= |s.log| && (s.pending == [] ==> EventsOf(s.output) == s.log[..s.cursor])
  {
    assert EventsOf(s.output) + [] == EventsOf(s.output);
  }

  /** A failed run gets no last read: what it logged behind the cursor is lost, so all of its events are streamed
      EXACTLY when the poller had read them all before it saw that the run was over. */
  lemma FailureDeliversIff(s: State)
    requires Winding(s) && s.position.Ending? && (HasFailed(s) || !s.runId)
    ensures var t := PollStep(s);
      && t.position.Closed? && EventsOf(t.output) == s.log[..s.cursor]
      && (EventsOf(t.output) == s.log <==> s.cursor == |s.log|)
  {
    PollProgress(s);
    InvMeans(s);
    assert s.log[..|s.log|] == s.log;
  }

  /** The poller closes the stream with one last message. */
  lemma PollsLastMessage(s: State)
    requires !s.position.Closed?
    requires s.position.LastRead? || s.position.LastEmit? ==> !HasFailed(s) && s.runId
    requires s.pending != [] ==> s.position.Emitting? || s.position.LastEmit?
    ensures var t := PollStep(s);
      t.position.Closed? ==> t.pending == [] && t.cursor == s.cursor && exists m ::
        && t.output == s.output + [m]
        && m == if HasFailed(s) then Failure(s.error.value) else if s.runId then Finished else Failure("Run failed to start.")
  {
  }

  lemma NotFinishedYet(s: State)
    requires Inv(s)
    ensures !s.position.Closed? ==> Finished !in s.output
  {
  }

  lemma FinishedIsComplete(s: State)
    requires Inv(s)
    ensures Finished in s.output ==> EventsOf(s.output) == s.log && s.done && !HasFailed(s)
  {
    assert EventsOf(s.output) + [] == EventsOf(s.output) && s.log[..|s.log|] == s.log;
  }

  /** However far the poller is when the run ends, the stream ends as it has to. */
  lemma {:induction false} StreamEndsRight(s: State, n: nat)
    requires Winding(s) && n >= PollsLeft(s)
    ensures EndsRight(s, Polled(s, n))
    decreases n
  {
    hide Winding, EndsRight, PollStep, PollsLeft;
    PollProgress(s);
    PollKeepsRun(s);
    WindingIsOpen(s);
    var t := PollStep(s);
    if t.position.Closed? {
      StaysClosed(t, n - 1);
    } else {
      StreamEndsRight(t, n - 1);
      SameRunSameEnd(s, t, Polled(t, n - 1));
    }
  }

  lemma WindingIsOpen(s: State)
    requires Winding(s)
    ensures PollsLeft(s) > 0
  {
  }

  lemma SameRunSameEnd(s: State, t: State, end: State)
    requires t.log == s.log && t.error == s.error && t.runId == s.runId
    ensures EndsRight(t, end) ==> EndsRight(s, end)
  {
  }

  lemma {:induction false} StaysClosed(s: State, n: nat)
    requires s.position.Closed?
    ensures Polled(s, n) == s
    decreases n
  {
    if n > 0 {
      StaysClosed(s, n - 1);
    }
  }

  lemma RunStep(s: State, a: Action, rest: seq<Action>)
    requires Enabled(s, a) && IsRun(Next(s, a), rest)
    ensures var all := [a] + rest; IsRun(s, all) && After(s, all) == After(Next(s, a), rest)
  {
    assert ([a] + rest)[1..] == rest;
  }

  /** After n polls that do not close the stream. */
  lemma {:induction false} PollRun(s: State, n: nat)
    requires forall k :: 0 <= k < n ==> !Polled(s, k).position.Closed?
    ensures exists polls: seq<Action> :: IsRun(s, polls) && After(s, polls) == Polled(s, n)
    decreases n
  {
    if n == 0 {
      assert IsRun(s, []) && After(s, []) == s;
    } else {
      assert !Polled(s, 0).position.Closed?;
      forall k | 0 <= k < n - 1 ensures !Polled(PollStep(s), k).position.Closed? {
        assert Polled(PollStep(s), k) == Polled(s, k + 1);
      }
      PollRun(PollStep(s), n - 1);
      var polls :| IsRun(PollStep(s), polls) && After(PollStep(s), polls) == Polled(PollStep(s), n - 1);
      RunStep(s, Poll, polls);
      assert IsRun(s, [Poll] + polls);
    }
  }

  /** A run that failed with an empty error text is streamed as finished EXACTLY when it has an id. */
  lemma EmptyErrorCountsAsSuccess(s: State, n: nat)
    requires Winding(s) && s.error == Some("") && n >= PollsLeft(s)
    ensures Finished in Polled(s, n).output <==> s.runId
  {
    hide Polled, PollsLeft;
    StreamEndsRight(s, n);
  }

  /** And such runs exist. */
  lemma EmptyErrorRun()
    ensures exists actions: seq<Action> ::
      IsRun(INITIAL, actions) && SetError("") in actions && Finished in After(INITIAL, actions).output
  {
    var s1 := Next(INITIAL, SetRunId);
    var s2 := Next(s1, SetError(""));
    var s3 := Next(s2, SetDone);
    FourPolls(s3);
    PollRun(s3, 4);
    var polls :| IsRun(s3, polls) && After(s3, polls) == Polled(s3, 4);
    RunStep(s2, SetDone, polls);
    RunStep(s1, SetError(""), [SetDone] + polls);
    RunStep(INITIAL, SetRunId, [SetError("")] + ([SetDone] + polls));
    var actions := [SetRunId] + ([SetError("")] + ([SetDone] + polls));
    assert actions[1] == SetError("") && IsRun(INITIAL, actions);
  }

  lemma FourPolls(s: State)
    requires s.position.Checking? && s.done && !HasFailed(s) && s.runId && s.cursor == |s.log|
    ensures forall k :: 0 <= k < 4 ==> !Polled(s, k).position.Closed?
    ensures Finished in Polled(s, 4).output
  {
    var s1 := PollStep(s);
    var s2 := PollStep(s1);
    var s3 := PollStep(s2);
    var s4 := PollStep(s3);
    assert Polled(s, 1) == s1;
    assert Polled(s, 2) == Polled(s1, 1) == s2;
    assert Polled(s, 3) == Polled(s1, 2) == Polled(s2, 1) == s3;
    assert Polled(s, 4) == Polled(s1, 3) == Polled(s2, 2) == Polled(s3, 1) == s4;
    assert s4.output[|s4.output| - 1] == Finished;
  }

  /** A run whose only event is never streamed. */
  lemma EventOfFailedRunIsLost(e: Event)
    ensures exists actions: seq<Action> ::
      && IsRun(INITIAL, actions)
      && var s := After(INITIAL, actions); s.position.Closed? && s.log == [e] && EventsOf(s.output) == []
  {
    hide IsRun, After, EventsOf, Polled;
    var s1 := Next(INITIAL, Append(e));
    var s2 := Next(s1, SetError("failed"));
    var s3 := Next(s2, SetDone);
    TwoPolls(s3, "failed");
    NoEvents("failed");
    PollRun(s3, 2);
    var polls :| IsRun(s3, polls) && After(s3, polls) == Polled(s3, 2);
    RunStep(s2, SetDone, polls);
    RunStep(s1, SetError("failed"), [SetDone] + polls);
    RunStep(INITIAL, Append(e), [SetError("failed")] + ([SetDone] + polls));
    assert IsRun(INITIAL, [Append(e)] + ([SetError("failed")] + ([SetDone] + polls)));
  }

  lemma TwoPolls(s: State, reason: string)
    requires s.position.Checking? && s.done && s.error == Some(reason) && reason != ""
    ensures forall k :: 0 <= k < 2 ==> !Polled(s, k).position.Closed?
    ensures var t := Polled(s, 2); t.position.Closed? && t.log == s.log && t.output == s.output + [Failure(reason)]
  {
    var s1 := PollStep(s);
    assert Polled(s, 1) == s1;
    assert Polled(s, 2) == Polled(s1, 1) == PollStep(s1);
  }

  lemma NoEvents(reason: string)
    ensures EventsOf(INITIAL.output + [Failure(reason)]) == []
  {
    EmitExtends([], Status(0));
    assert [] + [Status(0)] == INITIAL.output && EventsOf([]) == [];
    EmitExtends(INITIAL.output, Failure(reason));
  }

  // ---------- Delivery while the run goes on ----------

  ghost function Polls(actions: seq<Action>): nat {
    if actions == [] then 0 else (if actions[0].Poll? then 1 else 0) + Polls(actions[1..])
  }

  ghost predicate StaysConnected(actions: seq<Action>) {
    Disconnect !in actions
  }

  lemma OutputGrows(s: State, a: Action)
    ensures s.output <= Next(s, a).output && |Next(s, a).output| <= |s.output| + 1
  {
    hide PollStep;
    if a.Poll? {
      PollGrows(s);
    }
  }

  lemma PollGrows(s: State)
    ensures s.output <= PollStep(s).output && |PollStep(s).output| <= |s.output| + 1
  {
    hide HasFailed, ReadEvents, Emit, EmitPending;
    match s.position
    case Checking | Closed =>
    case Noticing => EmitGrows(s, Status(s.step));
    case Reading | LastRead => ReadKeepsOutput(s);
    case Emitting => if s.pending != [] { EmitPendingGrows(s); }
    case Ending =>
      if HasFailed(s) {
        FailedHasText(s);
        EmitGrows(s, Failure(s.error.value));
      } else {
        EmitGrows(s, Failure("Run failed to start."));
      }
    case LastEmit => if s.pending != [] { EmitPendingGrows(s); } else { EmitGrows(s, Finished); }
  }

  lemma FailedHasText(s: State)
    ensures HasFailed(s) ==> s.error.Some?
  {
  }

  lemma EmitGrows(s: State, m: Message)
    ensures s.output <= Emit(s, m).output && |Emit(s, m).output| == |s.output| + 1
  {
  }

  lemma EmitPendingGrows(s: State)
    requires s.pending != []
    ensures s.output <= EmitPending(s).output && |EmitPending(s).output| == |s.output| + 1
  {
  }

  lemma ReadKeepsOutput(s: State)
    ensures ReadEvents(s).output == s.output
  {
  }

  lemma EventsGrow(s: State, a: Action)
    ensures EventsOf(s.output) <= EventsOf(Next(s, a).output)
  {
    hide Next, EventsOf;
    OutputGrows(s, a);
    var t := Next(s, a);
    if t.output != s.output {
      var m := t.output[|s.output|];
      assert t.output == s.output + [m];
      EmitExtends(s.output, m);
    }
  }

  lemma {:induction false} RunGrows(s: State, actions: seq<Action>)
    requires Inv(s) && IsRun(s, actions)
    ensures EventsOf(s.output) <= EventsOf(After(s, actions).output)
    decreases |actions|
  {
    hide Inv, EventsOf, Next, Enabled;
    if actions != [] {
      EventsGrow(s, actions[0]);
      StepKeepsInv(s, actions[0]);
      RunGrows(Next(s, actions[0]), actions[1..]);
    }
  }

  lemma StepKeepsInv(s: State, a: Action)
    requires Inv(s) && Enabled(s, a)
    ensures Inv(Next(s, a))
  {
    hide Inv;
    if a.Poll? {
      PollStepIsNext(s);
      PollKeepsInv(s);
    } else {
      RunStepKeepsInv(s, a);
    }
  }

  /** One step of a connected stream that has events to yield: it yields the first of them, or leaves them alone. */
  lemma EmittingStep(s: State, a: Action)
    requires s.position.Emitting? && s.pending != [] && Enabled(s, a) && !a.Disconnect?
    ensures var t := Next(s, a);
      && t.position.Emitting? && t.cursor == s.cursor && s.log <= t.log
      && |t.pending| == |s.pending| - if a.Poll? then 1 else 0
  {
  }

  /** Events that have been read are yielded by as many steps of the poller, whatever the run does in between. */
  lemma {:induction false} PendingIsDelivered(s: State, actions: seq<Action>)
    requires Inv(s) && s.position.Emitting? && IsRun(s, actions) && StaysConnected(actions) && Polls(actions) >= |s.pending|
    ensures s.log[..s.cursor] <= EventsOf(After(s, actions).output)
    decreases |actions|
  {
    hide Inv, EventsOf, Next, Enabled;
    DeliveredUpToCursor(s);
    if s.pending == [] {
      RunGrows(s, actions);
    } else if actions != [] {
      var t := Next(s, actions[0]);
      assert actions[0] in actions;
      EmittingStep(s, actions[0]);
      StepKeepsInv(s, actions[0]);
      assert forall a :: a in actions[1..] ==> a in actions;
      PendingIsDelivered(t, actions[1..]);
      assert s.log[..s.cursor] == t.log[..t.cursor];
    }
  }

  /** Whatever the log holds when the poller reads it is streamed, while the run goes on, once the poller has made
      as many more steps as there were new events. */
  lemma ReadIsDelivered(s: State, actions: seq<Action>)
    requires Inv(s) && s.position.Reading? && s.knowsRun
    requires IsRun(PollStep(s), actions) && StaysConnected(actions) && Polls(actions) >= |s.log| - s.cursor
    ensures s.log <= EventsOf(After(PollStep(s), actions).output)
  {
    hide Inv, EventsOf, After, IsRun;
    PollKeepsInv(s);
    InvMeans(s);
    var t := PollStep(s);
    assert t.position.Emitting? && t.log == s.log && t.cursor == |s.log| && |t.pending| == |s.log| - s.cursor;
    PendingIsDelivered(t, actions);
    assert t.log[..t.cursor] == s.log;
  }

  /** How many steps of the poller there are to the next read of a run that has its id. */
  function ToRead(s: State): nat {
    match s.position
    case Reading => if s.knowsRun then 0 else 3
    case Noticing => 1
    case Checking => 2
    case Emitting => |s.pending| + 3
    case _ => 0
  }

  /** While the run goes on and has its id, the poller comes to read again and again. */
  lemma {:induction false} ReadComesRound(s: State)
    requires Inv(s) && !s.position.Closed? && !s.done && s.runId
    ensures var t := Polled(s, ToRead(s)); t.position.Reading? && t.knowsRun && t.log == s.log && Inv(t)
    decreases ToRead(s)
  {
    InvMeans(s);
    hide Inv;
    if ToRead(s) > 0 {
      PollKeepsInv(s);
      PollKeepsRun(s);
      var t := PollStep(s);
      assert ToRead(t) == ToRead(s) - 1;
      ReadComesRound(t);
    }
  }
}
