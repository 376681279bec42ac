/** `async_job.rs`: a background job whose watcher races the job's messages, the return of its dispatch,
    an optional deadline and the controller's polls. */
module AsyncJob {
  import opened Options
  import opened Words
  import Sequences

  datatype StreamId = Stdout | Stderr | OtherStream

  datatype Message =
    | TaskProgress(stream: StreamId, chunk: seq<Byte>)
    | TaskDone(exitCode: int, changed: bool, skipped: bool, finishedAt: nat)
    | TaskError(code: Byte, message: string)
    | OtherMessage

  datatype JobError = JobError(code: Byte, message: string)

  const TIMEOUT: Byte := 4
  const INTERNAL: Byte := 0

  datatype Entry = Entry(
    startedAt: nat,
    finishedAt: Option<nat>,
    rc: Option<int>,
    changed: bool,
    skipped: bool,
    stdout: seq<Byte>,
    stderr: seq<Byte>,
    error: Option<JobError>
  )

  function NewEntry(startedAt: nat): Entry {
    Entry(startedAt, None, None, false, false, [], [], None)
  }

  function Earliest(finished: Option<nat>, now: nat): Option<nat> {
    if finished.None? then Some(now) else finished
  }

  /** `stash_message`; `now` is the clock at that moment. */
  function Stash(e: Entry, m: Message, now: nat): Entry {
    match m
    case TaskProgress(Stdout, chunk) => e.(stdout := e.stdout + chunk)
    case TaskProgress(Stderr, chunk) => e.(stderr := e.stderr + chunk)
    case TaskProgress(OtherStream, _) => e
    case TaskDone(rc, changed, skipped, at) =>
      e.(rc := Some(rc), changed := changed, skipped := skipped, finishedAt := Earliest(e.finishedAt, at))
    case TaskError(code, message) =>
      e.(error := Some(JobError(code, message)), finishedAt := Earliest(e.finishedAt, now))
    case OtherMessage => e
  }

  function StashAll(e: Entry, ms: seq<Message>, now: nat): Entry
    decreases |ms|
  {
    if ms == [] then e else StashAll(Stash(e, ms[0], now), ms[1..], now)
  }

  /** The end of a job whose dispatch has returned; without a terminal message that is an internal error. */
  function Settle(e: Entry, now: nat, description: string): Entry {
    var e' := e.(finishedAt := Earliest(e.finishedAt, now));
    if e'.rc.None? && e'.error.None? then e'.(error := Some(JobError(INTERNAL, description))) else e'
  }

  function Expire(e: Entry, now: nat): Entry {
    e.(finishedAt := Some(now), error := Some(JobError(TIMEOUT, "async job exceeded timeout_ms")))
  }

  // ---------- the race ----------

  datatype Watcher = Watching | Returned | TimedOut

  datatype State = State(
    entry: Entry,
    queue: seq<Message>,      // sent by the job, not yet taken by the watcher
    emitted: seq<Message>,    // everything the job sent while it was being watched
    processed: seq<Message>,  // everything stashed
    hasDeadline: bool,
    watcher: Watcher
  )

  /** One arm of the watcher's select, or a message sent by the job.  The arms may become ready in any
      order; a deadline may even pass with messages still queued, because polling the dispatch sends. */
  datatype Event =
    | Emit(m: Message)
    | Recv(now: nat)
    | DispatchReturns(now: nat, description: string)
    | DeadlinePasses(now: nat)

  function Start(startedAt: nat, hasDeadline: bool): State {
    State(NewEntry(startedAt), [], [], [], hasDeadline, Watching)
  }

  function Step(s: State, e: Event): State {
    if !s.watcher.Watching? then s
    else match e
      case Emit(m) => s.(queue := s.queue + [m], emitted := s.emitted + [m])
      case Recv(now) =>
        if s.queue == [] then s
        else s.(entry := Stash(s.entry, s.queue[0], now), processed := s.processed + [s.queue[0]], queue := s.queue[1..])
      case DispatchReturns(now, description) =>
        s.(entry := Settle(StashAll(s.entry, s.queue, now), now, description),
           processed := s.processed + s.queue, queue := [], watcher := Returned)
      case DeadlinePasses(now) =>
        if s.hasDeadline then s.(entry := Expire(s.entry, now), watcher := TimedOut) else s
  }

  function Run(s: State, events: seq<Event>): State
    decreases |events|
  {
    if events == [] then s else Run(Step(s, events[0]), events[1..])
  }

  // ---------- the invariant ----------

  /** The bytes a sequence of messages puts on one stream. */
  function Captured(ms: seq<Message>, stream: StreamId): seq<Byte> {
    if ms == [] then []
    else (if ms[0].TaskProgress? && ms[0].stream == stream then ms[0].chunk else []) + Captured(ms[1..], stream)
  }

  predicate HasOutcome(e: Entry) {
    e.rc.Some? || e.error.Some?
  }

  predicate Inv(s: State) {
    s.emitted == s.processed + s.queue
    && s.entry.stdout == Captured(s.processed, Stdout)
    && s.entry.stderr == Captured(s.processed, Stderr)
    && (s.entry.finishedAt.Some? <==> HasOutcome(s.entry))
    && (!s.watcher.Watching? ==> s.entry.finishedAt.Some?)
    && (s.watcher.Returned? ==> s.queue == [])
  }

  /** What a poll may have seen before is still true: finished stays, an outcome stays, output only grows. */
  predicate Grows(before: Entry, after: Entry) {
    after.startedAt == before.startedAt
    && (before.finishedAt.Some? ==> after.finishedAt.Some?)
    && (before.rc.Some? ==> after.rc.Some?)
    && (before.error.Some? ==> after.error.Some?)
    && before.stdout <= after.stdout
    && before.stderr <= after.stderr
  }

  lemma GrowsTransitive(a: Entry, b: Entry, c: Entry)
    requires Grows(a, b) && Grows(b, c)
    ensures Grows(a, c)
  {
    PrefixTransitive(a.stdout, b.stdout, c.stdout);
    PrefixTransitive(a.stderr, b.stderr, c.stderr);
  }

  lemma PrefixTransitive(a: seq<Byte>, b: seq<Byte>, c: seq<Byte>)
    requires a <= b && b <= c
    ensures a <= c
  {
  }

  lemma {:induction false} CapturedConcat(a: seq<Message>, b: seq<Message>, stream: StreamId)
    ensures Captured(a + b, stream) == Captured(a, stream) + Captured(b, stream)
  {
    if a == [] {
      Sequences.NothingAdded(b);
    } else {
      Sequences.OffTheFront(a, b);
      CapturedConcat(a[1..], b, stream);
    }
  }

  lemma StashEffect(e: Entry, m: Message, now: nat)
    ensures Grows(e, Stash(e, m, now))
    ensures Stash(e, m, now).stdout == e.stdout + Captured([m], Stdout)
    ensures Stash(e, m, now).stderr == e.stderr + Captured([m], Stderr)
    ensures (e.finishedAt.Some? <==> HasOutcome(e)) ==>
      (Stash(e, m, now).finishedAt.Some? <==> HasOutcome(Stash(e, m, now)))
  {
    assert [m][1..] == [];
  }

  lemma {:induction false} StashAllEffect(e: Entry, ms: seq<Message>, now: nat)
    ensures Grows(e, StashAll(e, ms, now))
    ensures StashAll(e, ms, now).stdout == e.stdout + Captured(ms, Stdout)
    ensures StashAll(e, ms, now).stderr == e.stderr + Captured(ms, Stderr)
    ensures (e.finishedAt.Some? <==> HasOutcome(e)) ==>
      (StashAll(e, ms, now).finishedAt.Some? <==> HasOutcome(StashAll(e, ms, now)))
    decreases |ms|
  {
    if ms != [] {
      hide Stash, HasOutcome;
      var next := Stash(e, ms[0], now);
      StashEffect(e, ms[0], now);
      StashAllEffect(next, ms[1..], now);
      GrowsTransitive(e, next, StashAll(next, ms[1..], now));
      assert ms == [ms[0]] + ms[1..];
      CapturedConcat([ms[0]], ms[1..], Stdout);
      CapturedConcat([ms[0]], ms[1..], Stderr);
    }
  }

  lemma RecvKeeps(s: State, now: nat)
    requires Inv(s) && s.watcher.Watching? && s.queue != []
    ensures Inv(Step(s, Recv(now))) && Grows(s.entry, Step(s, Recv(now)).entry)
  {
    hide Stash, Captured, HasOutcome;
    var m := s.queue[0];
    StashEffect(s.entry, m, now);
    CapturedConcat(s.processed, [m], Stdout);
    CapturedConcat(s.processed, [m], Stderr);
    assert s.processed + s.queue == (s.processed + [m]) + s.queue[1..];
  }

  lemma ReturnKeeps(s: State, now: nat, description: string)
    requires Inv(s) && s.watcher.Watching?
    ensures Inv(Step(s, DispatchReturns(now, description)))
    ensures Grows(s.entry, Step(s, DispatchReturns(now, description)).entry)
  {
    hide StashAll, Captured;
    StashAllEffect(s.entry, s.queue, now);
    CapturedConcat(s.processed, s.queue, Stdout);
    CapturedConcat(s.processed, s.queue, Stderr);
    assert s.emitted == (s.processed + s.queue) + [];
  }

  lemma StepKeeps(s: State, e: Event)
    requires Inv(s)
    ensures Inv(Step(s, e)) && Grows(s.entry, Step(s, e).entry)
  {
    hide StashAll, Stash, Captured;
    if s.watcher.Watching? {
      match e
      case Emit(m) => assert s.emitted + [m] == s.processed + (s.queue + [m]);
      case Recv(now) => if s.queue != [] { RecvKeeps(s, now); }
      case DispatchReturns(now, description) => ReturnKeeps(s, now, description);
      case DeadlinePasses(now) =>
    }
  }

  lemma {:induction false} RunKeeps(s: State, events: seq<Event>)
    requires Inv(s)
    ensures Inv(Run(s, events)) && Grows(s.entry, Run(s, events).entry)
    decreases |events|
  {
    if events != [] {
      var next := Step(s, events[0]);
      StepKeeps(s, events[0]);
      RunKeeps(next, events[1..]);
      GrowsTransitive(s.entry, next.entry, Run(next, events[1..]).entry);
    }
  }

  /** Safety over every interleaving: a finished job carries an rc or an error, and only a finished one
      does; the captured streams are the stashed messages in order; an ended watcher leaves a finished job. */
  lemma EveryRun(startedAt: nat, hasDeadline: bool, events: seq<Event>)
    ensures Inv(Run(Start(startedAt, hasDeadline), events))
  {
    RunKeeps(Start(startedAt, hasDeadline), events);
  }

  lemma {:induction false} RunConcat(s: State, a: seq<Event>, b: seq<Event>)
    ensures Run(s, a + b) == Run(Run(s, a), b)
    decreases |a|
  {
    if a == [] {
      assert a + b == b;
    } else {
      assert (a + b)[1..] == a[1..] + b;
      RunConcat(Step(s, a[0]), a[1..], b);
    }
  }

  /** Two polls of the same job: the later one never takes anything back. */
  lemma PollsAgree(startedAt: nat, hasDeadline: bool, events: seq<Event>, more: seq<Event>)
    ensures Grows(Run(Start(startedAt, hasDeadline), events).entry,
                  Run(Start(startedAt, hasDeadline), events + more).entry)
  {
    EveryRun(startedAt, hasDeadline, events);
    RunConcat(Start(startedAt, hasDeadline), events, more);
    RunKeeps(Run(Start(startedAt, hasDeadline), events), more);
  }

  /** A job whose watcher ended by dispatch return has captured every byte the job sent. */
  lemma OutputComplete(startedAt: nat, hasDeadline: bool, events: seq<Event>)
    ensures var s := Run(Start(startedAt, hasDeadline), events);
      s.watcher.Returned? ==>
        s.entry.stdout == Captured(s.emitted, Stdout) && s.entry.stderr == Captured(s.emitted, Stderr)
  {
    EveryRun(startedAt, hasDeadline, events);
    var s := Run(Start(startedAt, hasDeadline), events);
    assert s.processed + [] == s.processed;
  }

  // ---------- when an outcome is final ----------

  lemma {:induction false} EndedIsFrozen(s: State, events: seq<Event>)
    requires !s.watcher.Watching?
    ensures Run(s, events) == s
    decreases |events|
  {
    if events != [] { EndedIsFrozen(s, events[1..]); }
  }

  /** The message that ends a task; every module sends one, and nothing after it. */
  predicate IsTerminal(m: Message) {
    m.TaskDone? || m.TaskError?
  }

  function Terminals(ms: seq<Message>): nat {
    if ms == [] then 0 else (if IsTerminal(ms[0]) then 1 else 0) + Terminals(ms[1..])
  }

  /** The messages sent in the course of some events. */
  function Sent(events: seq<Event>): seq<Message> {
    if events == [] then [] else (if events[0].Emit? then [events[0].m] else []) + Sent(events[1..])
  }

  datatype Outcome = Outcome(finishedAt: Option<nat>, rc: Option<int>, changed: bool, skipped: bool, error: Option<JobError>)

  /** What a poll reads, apart from the output. */
  function OutcomeOf(e: Entry): Outcome {
    Outcome(e.finishedAt, e.rc, e.changed, e.skipped, e.error)
  }

  lemma {:induction false} TerminalsConcat(a: seq<Message>, b: seq<Message>)
    ensures Terminals(a + b) == Terminals(a) + Terminals(b)
    decreases |a|
  {
    if a == [] {
      Sequences.NothingAdded(b);
    } else {
      Sequences.OffTheFront(a, b);
      TerminalsConcat(a[1..], b);
    }
  }

  lemma {:induction false} SentConcat(a: seq<Event>, b: seq<Event>)
    ensures Sent(a + b) == Sent(a) + Sent(b)
    decreases |a|
  {
    if a == [] {
      Sequences.NothingAdded(b);
      Sequences.NothingAdded(Sent(b));
    } else {
      Sequences.OffTheFront(a, b);
      SentConcat(a[1..], b);
      var head := if a[0].Emit? then [a[0].m] else [];
      Sequences.Associative(head, Sent(a[1..]), Sent(b));
    }
  }

  /** While the watcher is watching, only a terminal message finishes the entry. */
  predicate FinishedByMessage(s: State) {
    s.watcher.Watching? && s.entry.finishedAt.Some? ==> Terminals(s.processed) > 0
  }

  lemma TerminalsOne(m: Message)
    ensures Terminals([m]) == if IsTerminal(m) then 1 else 0
  {
    assert [m][1..] == [];
  }

  lemma StepFinishes(s: State, e: Event)
    requires FinishedByMessage(s)
    ensures FinishedByMessage(Step(s, e))
    ensures Step(s, e).emitted == s.emitted + (if s.watcher.Watching? && e.Emit? then [e.m] else [])
  {
    hide Terminals, StashAll;
    if s.watcher.Watching? && e.Recv? && s.queue != [] {
      TerminalsConcat(s.processed, [s.queue[0]]);
      TerminalsOne(s.queue[0]);
    }
  }

  lemma {:induction false} RunFinishes(s: State, events: seq<Event>)
    requires FinishedByMessage(s)
    ensures FinishedByMessage(Run(s, events))
    ensures Terminals(Run(s, events).emitted) <= Terminals(s.emitted) + Terminals(Sent(events))
    ensures Run(s, events).watcher.Watching? ==> Run(s, events).emitted == s.emitted + Sent(events)
    decreases |events|
  {
    hide Terminals, Step, FinishedByMessage;
    if events == [] {
      assert s.emitted + [] == s.emitted;
      TerminalsConcat(s.emitted, []);
    } else {
      var e := events[0];
      StepFinishes(s, e);
      RunFinishes(Step(s, e), events[1..]);
      if e.Emit? {
        assert Sent(events) == [e.m] + Sent(events[1..]);
        assert (s.emitted + [e.m]) + Sent(events[1..]) == s.emitted + ([e.m] + Sent(events[1..]));
        TerminalsConcat(s.emitted, [e.m]);
        TerminalsConcat([e.m], Sent(events[1..]));
      } else {
        assert Sent(events) == [] + Sent(events[1..]) == Sent(events[1..]);
        assert s.emitted + [] == s.emitted;
      }
      if !s.watcher.Watching? { EndedIsFrozen(s, events); EndedStep(s, e); }
    }
  }

  lemma EndedStep(s: State, e: Event)
    requires !s.watcher.Watching?
    ensures Step(s, e) == s
  {
  }

  lemma {:induction false} StashKeepsOutcome(e: Entry, ms: seq<Message>, now: nat)
    requires Terminals(ms) == 0
    ensures OutcomeOf(StashAll(e, ms, now)) == OutcomeOf(e)
    decreases |ms|
  {
    if ms != [] { StashKeepsOutcome(Stash(e, ms[0], now), ms[1..], now); }
  }

  /** With no terminal message left to come and no deadline, a finished entry keeps its outcome. */
  lemma {:induction false} OutcomeStays(s: State, events: seq<Event>)
    requires Inv(s) && s.entry.finishedAt.Some? && !s.hasDeadline
    requires Terminals(s.queue) == 0 && Terminals(Sent(events)) == 0
    ensures OutcomeOf(Run(s, events).entry) == OutcomeOf(s.entry)
    decreases |events|
  {
    hide Captured, StashAll;
    if events != [] && s.watcher.Watching? {
      var e := events[0];
      StepKeeps(s, e);
      match e {
        case Emit(m) =>
          assert Sent(events) == [m] + Sent(events[1..]);
          TerminalsConcat([m], Sent(events[1..]));
          TerminalsConcat(s.queue, [m]);
        case Recv(now) =>
          assert Sent(events) == Sent(events[1..]);
        case DispatchReturns(now, description) =>
          assert Sent(events) == Sent(events[1..]);
          StashKeepsOutcome(s.entry, s.queue, now);
        case DeadlinePasses(now) =>
          assert Sent(events) == Sent(events[1..]);
      }
      OutcomeStays(Step(s, e), events[1..]);
    } else if events != [] {
      EndedIsFrozen(s, events);
    }
  }

  lemma {:induction false} DeadlineIsFixed(s: State, events: seq<Event>)
    ensures Run(s, events).hasDeadline == s.hasDeadline
    decreases |events|
  {
    hide StashAll, Stash;
    if events != [] { DeadlineIsFixed(Step(s, events[0]), events[1..]); }
  }

  /** Two polls of a job that sends at most one terminal message: what the first reads as finished is what the
      second reads. */
  ghost predicate SameOutcome(startedAt: nat, hasDeadline: bool, events: seq<Event>, more: seq<Event>) {
    var seen := Run(Start(startedAt, hasDeadline), events).entry;
    Terminals(Sent(events + more)) <= 1 && seen.finishedAt.Some? ==>
      var later := Run(Start(startedAt, hasDeadline), events + more).entry;
      later.rc == seen.rc && later.error == seen.error && later.finishedAt == seen.finishedAt
      && later.changed == seen.changed && later.skipped == seen.skipped
  }

  /** Without a deadline the outcome of a finished job never changes. */
  lemma FinishedIsFinal(startedAt: nat, events: seq<Event>, more: seq<Event>)
    ensures SameOutcome(startedAt, false, events, more)
  {
    var start := Start(startedAt, false);
    var s := Run(start, events);
    if Terminals(Sent(events + more)) <= 1 && s.entry.finishedAt.Some? {
      hide Terminals, Sent, Step;
      RunConcat(start, events, more);
      if s.watcher.Watching? {
        EveryRun(startedAt, false, events);
        DeadlineIsFixed(start, events);
        NothingYet(start);
        RunFinishes(start, events);
        assert [] + Sent(events) == Sent(events);
        SentConcat(events, more);
        TerminalsConcat(Sent(events), Sent(more));
        TerminalsConcat(s.processed, s.queue);
        OutcomeStays(s, more);
      } else {
        EndedIsFrozen(s, more);
      }
    }
  }

  lemma NothingYet(s: State)
    requires s.entry.finishedAt.None?
    ensures FinishedByMessage(s)
  {
  }

  /** A run against a dispatch that lingers after its terminal message: a poll reads success, and a later one a
      timeout with a later finish time, because the deadline passes before the dispatch returns. */
  lemma SuccessThenTimeout(startedAt: nat, t0: nat, t1: nat)
    requires t1 > t0
    ensures var done := Run(Start(startedAt, true), [Emit(TaskDone(0, false, false, t0)), Recv(t0)]);
      done.entry.finishedAt == Some(t0) && done.entry.rc == Some(0) && done.entry.error.None?
    ensures var late := Run(Start(startedAt, true),
                            [Emit(TaskDone(0, false, false, t0)), Recv(t0)] + [DeadlinePasses(t1)]);
      late.entry.finishedAt == Some(t1) && late.entry.rc == Some(0) && late.entry.error.Some?
      && late.entry.error.value.code == TIMEOUT
  {
    var s0 := Start(startedAt, true);
    var events := [Emit(TaskDone(0, false, false, t0)), Recv(t0)];
    var s1 := Step(s0, events[0]);
    var s2 := Step(s1, events[1]);
    assert events[1..][1..] == [];
    assert Run(s0, events) == Run(s1, events[1..]) == Run(s2, []) == s2;
    RunConcat(s0, events, [DeadlinePasses(t1)]);
    assert [DeadlinePasses(t1)][1..] == [];
    assert Run(s2, [DeadlinePasses(t1)]) == Run(Step(s2, DeadlinePasses(t1)), []);
  }

  /** For jobs that send at most one terminal message and dispatches that may linger, finished outcomes are
      final if and only if the job was started without a timeout. */
  lemma FinalExactly(startedAt: nat, hasDeadline: bool)
    ensures (forall events, more :: SameOutcome(startedAt, hasDeadline, events, more)) <==> !hasDeadline
  {
    hide SameOutcome;
    if hasDeadline {
      LingeringChanges(startedAt);
    } else {
      forall events, more ensures SameOutcome(startedAt, false, events, more) { FinishedIsFinal(startedAt, events, more); }
    }
  }

  lemma LingeringChanges(startedAt: nat)
    ensures !SameOutcome(startedAt, true, [Emit(TaskDone(0, false, false, 0)), Recv(0)], [DeadlinePasses(1)])
  {
    SuccessThenTimeout(startedAt, 0, 1);
    var m := TaskDone(0, false, false, 0);
    var events := [Emit(m), Recv(0)];
    SentConcat(events, [DeadlinePasses(1)]);
    assert Sent([DeadlinePasses(1)]) == [] by { assert [DeadlinePasses(1)][1..] == []; }
    assert events[1..] == [Recv(0)] && [Recv(0)][1..] == [];
    assert Sent([Recv(0)]) == [];
    assert Sent(events) == [m] + Sent([Recv(0)]) == [m];
    assert Sent(events + [DeadlinePasses(1)]) == [m];
    TerminalsOne(m);
  }

  // ---------- a dispatch that returns with its terminal message ----------

  /** The dispatch sends its terminal message in its last step: one poll of it sends and returns, so no other
      arm of the watcher comes between. */
  predicate Prompt(events: seq<Event>) {
    forall i :: 0 <= i < |events| - 1 && events[i].Emit? && IsTerminal(events[i].m) ==> events[i + 1].DispatchReturns?
  }

  /** Such a dispatch finishes the entry only by ending the watcher. */
  lemma {:induction false} PromptRun(s: State, events: seq<Event>)
    requires Prompt(events)
    requires s.watcher.Watching? ==> s.entry.finishedAt.None?
    requires s.watcher.Watching? && Terminals(s.queue) > 0 && events != [] ==> events[0].DispatchReturns?
    ensures Run(s, events).watcher.Watching? ==> Run(s, events).entry.finishedAt.None?
    decreases |events|
  {
    hide StashAll;
    if events != [] && s.watcher.Watching? {
      var e := events[0];
      if e.Emit? {
        TerminalsConcat(s.queue, [e.m]);
        TerminalsOne(e.m);
      }
      assert Prompt(events[1..]) by {
        forall i | 0 <= i < |events[1..]| - 1 && events[1..][i].Emit? && IsTerminal(events[1..][i].m)
          ensures events[1..][i + 1].DispatchReturns?
        {
          assert events[1..][i] == events[i + 1] && events[1..][i + 1] == events[i + 2];
        }
      }
      if events[1..] != [] { assert events[1..][0] == events[1]; }
      PromptRun(Step(s, e), events[1..]);
    } else if events != [] {
      EndedIsFrozen(s, events);
    }
  }

  /** With a timeout or without: once a poll reads finished, no later poll reads anything else, output included,
      whatever happens. */
  lemma PromptIsFinal(startedAt: nat, hasDeadline: bool, events: seq<Event>, more: seq<Event>)
    requires Prompt(events)
    ensures var seen := Run(Start(startedAt, hasDeadline), events).entry;
      seen.finishedAt.Some? ==> Run(Start(startedAt, hasDeadline), events + more).entry == seen
  {
    var start := Start(startedAt, hasDeadline);
    PromptRun(start, events);
    RunConcat(start, events, more);
    if !Run(start, events).watcher.Watching? { EndedIsFrozen(Run(start, events), more); }
  }

  // ---------- what a poll reports ----------

  datatype Value = Int(n: int) | Flag(b: bool) | Str(s: string) | Bytes(bytes: seq<Byte>) | Opaque(json: string)

  /** `run_status`; `parse` is the JSON reader, giving the keys of an object or nothing. */
  function Status(jobId: nat, e: Entry, parse: seq<Byte> -> Option<map<string, Value>>): map<string, Value> {
    var base := map["ansible_job_id" := Int(jobId), "started" := Int(1), "finished" := Int(if e.finishedAt.Some? then 1 else 0)];
    if e.finishedAt.None? then base
    else
      var own := base["rc" := Int(if e.rc.Some? then e.rc.value else -1)]["changed" := Flag(e.changed)];
      var failed := if e.error.None? then own
                    else own["failed" := Flag(true)]["error_code" := Int(e.error.value.code)]["msg" := Str(e.error.value.message)];
      var out := if e.stdout == [] then failed
                 else if parse(e.stdout).Some? then parse(e.stdout).value + failed
                 else failed["stdout" := Bytes(e.stdout)];
      if e.stderr == [] then out else out["stderr" := Bytes(e.stderr)]
  }

  /** The job's own keys, which nothing the inner task printed can shadow. */
  function OwnKeys(e: Entry): set<string> {
    {"ansible_job_id", "started", "finished"}
    + (if e.finishedAt.Some? then {"rc", "changed"} else {})
    + (if e.finishedAt.Some? && e.error.Some? then {"failed", "error_code", "msg"} else {})
  }

  /** An unfinished job shows its own keys only; in the report of a finished one they have the values of the entry,
      whatever the inner task printed. */
  lemma StatusIsHonest(jobId: nat, e: Entry, parse: seq<Byte> -> Option<map<string, Value>>)
    ensures var v := Status(jobId, e, parse);
      OwnKeys(e) <= v.Keys && (e.finishedAt.None? ==> v.Keys == OwnKeys(e))
      && v["ansible_job_id"] == Int(jobId) && v["started"] == Int(1)
      && v["finished"] == Int(if e.finishedAt.Some? then 1 else 0)
    ensures e.finishedAt.Some? ==>
      var v := Status(jobId, e, parse);
      v["rc"] == Int(if e.rc.Some? then e.rc.value else -1) && v["changed"] == Flag(e.changed)
      && (e.error.Some? ==> v["failed"] == Flag(true) && v["error_code"] == Int(e.error.value.code)
                            && v["msg"] == Str(e.error.value.message))
  {
  }

  /** Standard error is always shown, and standard output unless it is an object. */
  lemma OutputShows(jobId: nat, e: Entry, parse: seq<Byte> -> Option<map<string, Value>>)
    requires e.finishedAt.Some?
    ensures var v := Status(jobId, e, parse);
      (e.stderr != [] ==> "stderr" in v && v["stderr"] == Bytes(e.stderr))
      && (e.stdout != [] && parse(e.stdout).None? ==> "stdout" in v && v["stdout"] == Bytes(e.stdout))
  {
  }

  /** A printed object shows every key it does not share with the job. */
  lemma PrintedKeysShow(jobId: nat, e: Entry, parse: seq<Byte> -> Option<map<string, Value>>, k: string)
    requires e.finishedAt.Some? && e.stdout != [] && parse(e.stdout).Some?
    requires k in parse(e.stdout).value && k !in OwnKeys(e) && !(k == "stderr" && e.stderr != [])
    ensures var v := Status(jobId, e, parse); k in v && v[k] == parse(e.stdout).value[k]
  {
  }

  // ---------- the watcher and the table ----------

  class Job {
    var entry: Entry
    constructor (startedAt: nat)
      ensures entry == NewEntry(startedAt)
    {
      entry := NewEntry(startedAt);
    }

    method StashMessage(m: Message, now: nat)
      modifies this
      ensures entry == Stash(old(entry), m, now)
      ensures m.TaskDone? ==>
        entry.rc == Some(m.exitCode) && entry.changed == m.changed && entry.skipped == m.skipped
        && entry.error == old(entry).error
      ensures m.TaskError? ==>
        entry.error == Some(JobError(m.code, m.message)) && entry.rc == old(entry).rc
        && entry.changed == old(entry).changed && entry.skipped == old(entry).skipped
      ensures m.TaskDone? || m.TaskError? ==>
        entry.stdout == old(entry).stdout && entry.stderr == old(entry).stderr
        && entry.finishedAt == if old(entry).finishedAt.Some? then old(entry).finishedAt
                               else if m.TaskDone? then Some(m.finishedAt) else Some(now)
    {
      match m
      case TaskProgress(stream, chunk) =>
        match stream {
          case Stdout => entry := entry.(stdout := entry.stdout + chunk);
          case Stderr => entry := entry.(stderr := entry.stderr + chunk);
          case OtherStream =>
        }
      case TaskDone(rc, changed, skipped, at) =>
        entry := entry.(rc := Some(rc), changed := changed, skipped := skipped);
        if entry.finishedAt.None? {
          entry := entry.(finishedAt := Some(at));
        }
      case TaskError(code, message) =>
        entry := entry.(error := Some(JobError(code, message)));
        if entry.finishedAt.None? {
          entry := entry.(finishedAt := Some(now));
        }
      case OtherMessage =>
    }
  }

  /** `JobTable`: jobs shared by reference, keyed by the sequence number that started them. */
  class JobTable {
    var jobs: map<nat, Job>

    constructor ()
      ensures jobs == map[]
    {
      jobs := map[];
    }

    method Create(jobId: nat, startedAt: nat) returns (job: Job)
      modifies this
      ensures fresh(job) && job.entry == NewEntry(startedAt) && jobs == old(jobs)[jobId := job]
    {
      job := new Job(startedAt);
      jobs := jobs[jobId := job];
    }

    method Get(jobId: nat) returns (job: Job?)
      ensures job == if jobId in jobs then jobs[jobId] else null
    {
      if jobId in jobs {
        job := jobs[jobId];
      } else {
        job := null;
      }
    }
  }

  /** A nested start runs under the same sequence number and takes over the table's slot: a poll then finds the
      inner job, and no message of the outer one reaches what the poll reads. */
  method NestedStart(table: JobTable, jobId: nat, t0: nat, t1: nat, outerMessages: seq<Message>, now: nat)
    returns (outer: Job, polled: Job?)
    modifies table
    ensures polled != null && polled != outer && table.jobs == old(table.jobs)[jobId := polled]
    ensures polled.entry == NewEntry(t1) && outer.entry == StashAll(NewEntry(t0), outerMessages, now)
  {
    outer := table.Create(jobId, t0);
    var _ := table.Create(jobId, t1);
    DrainInto(outer, outerMessages, now);
    polled := table.Get(jobId);
  }

  /** `while let Ok(m) = rx.try_recv() { stash_message(..) }`. */
  method DrainInto(job: Job, queue: seq<Message>, now: nat)
    modifies job
    ensures job.entry == StashAll(old(job.entry), queue, now)
  {
    assert queue[0..] == queue;
    for i := 0 to |queue|
      invariant StashAll(job.entry, queue[i..], now) == StashAll(old(job.entry), queue, now)
    {
      assert queue[i..][1..] == queue[i + 1..];
      job.StashMessage(queue[i], now);
    }
  }

  /** The watcher of one job. */
  class JobWatcher {
    const job: Job
    const hasDeadline: bool
    var queue: seq<Message>
    var watching: bool
    ghost var run: State

    ghost predicate Valid()
      reads this, job
    {
      Inv(run) && run.entry == job.entry && run.queue == queue && run.hasDeadline == hasDeadline
      && run.watcher.Watching? == watching
    }

    constructor (job: Job, hasDeadline: bool)
      requires job.entry == NewEntry(job.entry.startedAt)
      ensures Valid() && this.job == job && run == Start(job.entry.startedAt, hasDeadline)
    {
      this.job, this.hasDeadline := job, hasDeadline;
      queue, watching := [], true;
      run := Start(job.entry.startedAt, hasDeadline);
    }

    method OnMessage(now: nat)
      requires Valid() && watching && queue != []
      modifies this, job
      ensures Valid() && run == Step(old(run), Recv(now))
    {
      StepKeeps(run, Recv(now));
      run := Step(run, Recv(now));
      job.StashMessage(queue[0], now);
      queue := queue[1..];
    }

    method OnDispatchReturn(now: nat, description: string)
      requires Valid() && watching
      modifies this, job
      ensures Valid() && !watching && run == Step(old(run), DispatchReturns(now, description))
    {
      StepKeeps(run, DispatchReturns(now, description));
      run := Step(run, DispatchReturns(now, description));
      DrainInto(job, queue, now);
      queue := [];
      var g := job.entry;
      if g.finishedAt.None? {
        g := g.(finishedAt := Some(now));
      }
      if g.rc.None? && g.error.None? {
        g := g.(error := Some(JobError(INTERNAL, description)));
      }
      job.entry := g;
      watching := false;
    }

    method OnDeadline(now: nat)
      requires Valid() && watching && hasDeadline
      modifies this, job
      ensures Valid() && !watching && run == Step(old(run), DeadlinePasses(now))
    {
      StepKeeps(run, DeadlinePasses(now));
      run := Step(run, DeadlinePasses(now));
      job.entry := job.entry.(finishedAt := Some(now),
                              error := Some(JobError(TIMEOUT, "async job exceeded timeout_ms")));
      watching := false;
    }
  }
}
