/** Which outcome a background job ends with: the one its own messages tell, unless it ran out of time or said
    nothing. */
module AsyncOutcome {
  import opened Options
  import opened AsyncJob
  import opened Words
  import Sequences

  /** A message and the time at which it was stashed. */
  datatype Stamp = Stamp(m: Message, now: nat)

  function Messages(taken: seq<Stamp>): (ms: seq<Message>)
    ensures |ms| == |taken|
    ensures forall i :: 0 <= i < |taken| ==> ms[i] == taken[i].m
  {
    seq(|taken|, i requires 0 <= i < |taken| => taken[i].m)
  }

  function StampAll(ms: seq<Message>, now: nat): (taken: seq<Stamp>)
    ensures |taken| == |ms|
  {
    seq(|ms|, i requires 0 <= i < |ms| => Stamp(ms[i], now))
  }

  /** What the watcher stashes in one event. */
  function TakenBy(s: State, e: Event): seq<Stamp> {
    if !s.watcher.Watching? then []
    else match e
      case Recv(now) => if s.queue == [] then [] else [Stamp(s.queue[0], now)]
      case DispatchReturns(now, _) => StampAll(s.queue, now)
      case _ => []
  }

  function Taken(s: State, events: seq<Event>): seq<Stamp>
    decreases |events|
  {
    if events == [] then [] else TakenBy(s, events[0]) + Taken(Step(s, events[0]), events[1..])
  }

  // ---------- what the messages tell ----------

  predicate LastDone(taken: seq<Stamp>, i: int) {
    0 <= i < |taken| && taken[i].m.TaskDone? && forall j :: i < j < |taken| ==> !taken[j].m.TaskDone?
  }

  predicate LastError(taken: seq<Stamp>, i: int) {
    0 <= i < |taken| && taken[i].m.TaskError? && forall j :: i < j < |taken| ==> !taken[j].m.TaskError?
  }

  predicate FirstEnd(taken: seq<Stamp>, i: int) {
    0 <= i < |taken| && IsTerminal(taken[i].m) && forall j :: 0 <= j < i ==> !IsTerminal(taken[j].m)
  }

  predicate NoEnd(taken: seq<Stamp>) {
    forall i :: 0 <= i < |taken| ==> !IsTerminal(taken[i].m)
  }

  /** Exit code and flags are those of the last `TaskDone`, or those of a job that has not said anything. */
  ghost predicate CodeTold(e: Entry, taken: seq<Stamp>) {
    (forall i :: LastDone(taken, i) ==>
       e.rc == Some(taken[i].m.exitCode) && e.changed == taken[i].m.changed && e.skipped == taken[i].m.skipped)
    && ((forall i :: 0 <= i < |taken| ==> !taken[i].m.TaskDone?) ==> e.rc == None && !e.changed && !e.skipped)
  }

  ghost predicate ErrorTold(e: Entry, taken: seq<Stamp>) {
    (forall i :: LastError(taken, i) ==> e.error == Some(JobError(taken[i].m.code, taken[i].m.message)))
    && ((forall i :: 0 <= i < |taken| ==> !taken[i].m.TaskError?) ==> e.error == None)
  }

  /** The job finished when it first said so: at the time a `TaskDone` gives, or when a `TaskError` arrived. */
  ghost predicate FinishTold(e: Entry, taken: seq<Stamp>) {
    (forall i :: FirstEnd(taken, i) ==>
       e.finishedAt == Some(if taken[i].m.TaskDone? then taken[i].m.finishedAt else taken[i].now))
    && (NoEnd(taken) ==> e.finishedAt == None)
  }

  ghost predicate Told(e: Entry, taken: seq<Stamp>) {
    CodeTold(e, taken) && ErrorTold(e, taken) && FinishTold(e, taken)
  }

  lemma StashTellsCode(e: Entry, taken: seq<Stamp>, x: Stamp)
    requires CodeTold(e, taken)
    ensures CodeTold(Stash(e, x.m, x.now), taken + [x])
  {
    var more := taken + [x];
    forall i | LastDone(more, i)
      ensures Stash(e, x.m, x.now).rc == Some(more[i].m.exitCode)
        && Stash(e, x.m, x.now).changed == more[i].m.changed && Stash(e, x.m, x.now).skipped == more[i].m.skipped
    {
      if i < |taken| {
        assert !more[|taken|].m.TaskDone?;
        assert forall j :: i < j < |taken| ==> taken[j] == more[j];
        assert LastDone(taken, i);
      }
    }
    if forall i :: 0 <= i < |more| ==> !more[i].m.TaskDone? {
      assert !more[|taken|].m.TaskDone?;
      assert forall i :: 0 <= i < |taken| ==> taken[i] == more[i];
    }
  }

  lemma StashTellsError(e: Entry, taken: seq<Stamp>, x: Stamp)
    requires ErrorTold(e, taken)
    ensures ErrorTold(Stash(e, x.m, x.now), taken + [x])
  {
    var more := taken + [x];
    forall i | LastError(more, i)
      ensures Stash(e, x.m, x.now).error == Some(JobError(more[i].m.code, more[i].m.message))
    {
      if i < |taken| {
        assert !more[|taken|].m.TaskError?;
        assert forall j :: i < j < |taken| ==> taken[j] == more[j];
        assert LastError(taken, i);
      }
    }
    if forall i :: 0 <= i < |more| ==> !more[i].m.TaskError? {
      assert !more[|taken|].m.TaskError?;
      assert forall i :: 0 <= i < |taken| ==> taken[i] == more[i];
    }
  }

  lemma FirstOf(taken: seq<Stamp>) returns (i: int)
    requires !NoEnd(taken)
    ensures FirstEnd(taken, i)
  {
    i := 0;
    while !IsTerminal(taken[i].m)
      invariant 0 <= i < |taken| && forall j :: 0 <= j < i ==> !IsTerminal(taken[j].m)
      decreases |taken| - i
    {
      if i + 1 == |taken| {
        assert NoEnd(taken);
      }
      i := i + 1;
    }
  }

  lemma OneFirstEnd(taken: seq<Stamp>, i: int, j: int)
    requires FirstEnd(taken, i) && FirstEnd(taken, j)
    ensures i == j
  {
  }

  lemma StashTellsFinish(e: Entry, taken: seq<Stamp>, x: Stamp)
    requires FinishTold(e, taken)
    ensures FinishTold(Stash(e, x.m, x.now), taken + [x])
  {
    var more := taken + [x];
    assert forall i :: 0 <= i < |taken| ==> taken[i] == more[i];
    assert more[|taken|] == x;
    if NoEnd(taken) {
      forall i | FirstEnd(more, i)
        ensures i == |taken|
      {
      }
    } else {
      var first := FirstOf(taken);
      assert IsTerminal(more[first].m);
      forall i | FirstEnd(more, i)
        ensures i == first
      {
        OneFirstEnd(more, i, first);
      }
    }
  }

  lemma StashTells(e: Entry, taken: seq<Stamp>, x: Stamp)
    requires Told(e, taken)
    ensures Told(Stash(e, x.m, x.now), taken + [x])
  {
    StashTellsCode(e, taken, x);
    StashTellsError(e, taken, x);
    StashTellsFinish(e, taken, x);
  }

  lemma {:induction false} StashAllTells(e: Entry, taken: seq<Stamp>, ms: seq<Message>, now: nat)
    requires Told(e, taken)
    ensures Told(StashAll(e, ms, now), taken + StampAll(ms, now))
    decreases |ms|
  {
    hide Told, Stash;
    if ms == [] {
      Sequences.NothingAdded(taken);
      assert StampAll(ms, now) == [];
    } else {
      var x := Stamp(ms[0], now);
      StashTells(e, taken, x);
      StashAllTells(Stash(e, ms[0], now), taken + [x], ms[1..], now);
      assert StampAll(ms, now) == [x] + StampAll(ms[1..], now);
      Sequences.Associative(taken, [x], StampAll(ms[1..], now));
    }
  }

  // ---------- over every run ----------

  lemma {:induction false} RunTells(s: State, events: seq<Event>, taken: seq<Stamp>)
    requires Told(s.entry, taken) && s.processed == Messages(taken) && Run(s, events).watcher.Watching?
    ensures Told(Run(s, events).entry, taken + Taken(s, events))
    ensures Run(s, events).processed == Messages(taken + Taken(s, events))
    decreases |events|
  {
    hide Told, Stash, StashAll;
    if events == [] {
      Sequences.NothingAdded(taken);
    } else {
      var e := events[0];
      var now := TakenBy(s, e);
      if !s.watcher.Watching? { EndedIsFrozen(s, events); }
      if !Step(s, e).watcher.Watching? { EndedIsFrozen(Step(s, e), events[1..]); }
      Sequences.NothingAdded(taken);
      if e.Recv? && s.queue != [] { StashTells(s.entry, taken, now[0]); }
      assert Step(s, e).processed == Messages(taken + now);
      RunTells(Step(s, e), events[1..], taken + now);
      Sequences.Associative(taken, now, Taken(Step(s, e), events[1..]));
    }
  }

  lemma NothingTold(startedAt: nat)
    ensures Told(NewEntry(startedAt), [])
  {
  }

  /** While the job is being watched its entry is what the stashed messages tell. */
  lemma WatchedOutcome(startedAt: nat, hasDeadline: bool, events: seq<Event>)
    requires Run(Start(startedAt, hasDeadline), events).watcher.Watching?
    ensures var s, taken := Run(Start(startedAt, hasDeadline), events), Taken(Start(startedAt, hasDeadline), events);
      Told(s.entry, taken) && s.processed == Messages(taken)
  {
    hide Told, Run, Taken;
    NothingTold(startedAt);
    var taken := Taken(Start(startedAt, hasDeadline), events);
    RunTells(Start(startedAt, hasDeadline), events, []);
    Sequences.NothingAdded(taken);
  }

  /** When the dispatch returns, all messages ever sent have been stashed and the entry is what they tell; a job
      that sent neither `TaskDone` nor `TaskError` ends at that moment with an internal error. */
  lemma ReturnedOutcome(startedAt: nat, hasDeadline: bool, events: seq<Event>, now: nat, description: string)
    requires Run(Start(startedAt, hasDeadline), events).watcher.Watching?
    ensures var s := Run(Start(startedAt, hasDeadline), events);
      var t := Step(s, DispatchReturns(now, description));
      var taken := Taken(Start(startedAt, hasDeadline), events) + StampAll(s.queue, now);
      t.watcher.Returned? && t.emitted == Messages(taken) && CodeTold(t.entry, taken)
      && if NoEnd(taken) then t.entry.error == Some(JobError(0, description)) && t.entry.finishedAt == Some(now)
         else ErrorTold(t.entry, taken) && FinishTold(t.entry, taken)
  {
    hide Run, Step, Told, Taken, Inv, CodeTold, ErrorTold, FinishTold, NoEnd;
    var start := Start(startedAt, hasDeadline);
    EveryRun(startedAt, hasDeadline, events);
    WatchedOutcome(startedAt, hasDeadline, events);
    ReturnTells(Run(start, events), Taken(start, events), now, description);
  }

  lemma ReturnTells(s: State, taken: seq<Stamp>, now: nat, description: string)
    requires s.watcher.Watching? && Inv(s) && Told(s.entry, taken) && s.processed == Messages(taken)
    ensures var t := Step(s, DispatchReturns(now, description));
      var all := taken + StampAll(s.queue, now);
      t.watcher.Returned? && t.emitted == Messages(all) && CodeTold(t.entry, all)
      && if NoEnd(all) then t.entry.error == Some(JobError(0, description)) && t.entry.finishedAt == Some(now)
         else ErrorTold(t.entry, all) && FinishTold(t.entry, all)
  {
    hide Told, StashAll, Settle, CodeTold, ErrorTold, FinishTold, NoEnd;
    var all := taken + StampAll(s.queue, now);
    StashAllTells(s.entry, taken, s.queue, now);
    assert s.processed + s.queue == Messages(all);
    SettledTells(StashAll(s.entry, s.queue, now), all, now, description);
  }

  lemma SettledTells(e: Entry, taken: seq<Stamp>, now: nat, description: string)
    requires Told(e, taken)
    ensures var t := Settle(e, now, description);
      CodeTold(t, taken)
      && if NoEnd(taken) then t.error == Some(JobError(0, description)) && t.finishedAt == Some(now)
         else ErrorTold(t, taken) && FinishTold(t, taken)
  {
    if NoEnd(taken) {
      assert forall i :: 0 <= i < |taken| ==> !IsTerminal(taken[i].m);
    } else {
      var first := FirstOf(taken);
      EndTold(e, taken, first);
    }
  }

  lemma EndTold(e: Entry, taken: seq<Stamp>, k: int)
    requires Told(e, taken) && 0 <= k < |taken| && IsTerminal(taken[k].m)
    ensures e.rc.Some? || e.error.Some?
  {
    if taken[k].m.TaskDone? {
      var i := LastDoneFrom(taken, k);
    } else {
      var i := LastErrorFrom(taken, k);
    }
  }

  lemma LastDoneFrom(taken: seq<Stamp>, k: int) returns (i: int)
    requires 0 <= k < |taken| && taken[k].m.TaskDone?
    ensures LastDone(taken, i)
    decreases |taken| - k
  {
    if j :| k < j < |taken| && taken[j].m.TaskDone? { i := LastDoneFrom(taken, j); } else { i := k; }
  }

  lemma LastErrorFrom(taken: seq<Stamp>, k: int) returns (i: int)
    requires 0 <= k < |taken| && taken[k].m.TaskError?
    ensures LastError(taken, i)
    decreases |taken| - k
  {
    if j :| k < j < |taken| && taken[j].m.TaskError? { i := LastErrorFrom(taken, j); } else { i := k; }
  }

  /** When the deadline passes first, the entry says so, at that moment; the exit code stays what was told. */
  lemma TimedOutcome(startedAt: nat, events: seq<Event>, now: nat)
    requires Run(Start(startedAt, true), events).watcher.Watching?
    ensures var t := Step(Run(Start(startedAt, true), events), DeadlinePasses(now));
      t.watcher.TimedOut? && CodeTold(t.entry, Taken(Start(startedAt, true), events))
      && t.entry.error == Some(JobError(4, "async job exceeded timeout_ms")) && t.entry.finishedAt == Some(now)
  {
    WatchedOutcome(startedAt, true, events);
    DeadlineIsFixed(Start(startedAt, true), events);
  }

  /** There is no other end: a run that is no longer watched ended at one of its events, by the return of the
      dispatch or by the deadline of a job that has one, and stays as that event left it. */
  lemma {:induction false} EndedBy(s: State, events: seq<Event>) returns (n: nat)
    requires s.watcher.Watching? && !Run(s, events).watcher.Watching?
    ensures n < |events| && Run(s, events[..n]).watcher.Watching?
    ensures Run(s, events) == Step(Run(s, events[..n]), events[n])
    ensures events[n].DispatchReturns? || (events[n].DeadlinePasses? && s.hasDeadline)
    decreases |events|
  {
    hide Stash, StashAll, Settle, Expire;
    var next := Step(s, events[0]);
    if next.watcher.Watching? {
      n := EndedBy(next, events[1..]);
      assert events[..n + 1][1..] == events[1..][..n];
      n := n + 1;
    } else {
      n := 0;
      EndedIsFrozen(next, events[1..]);
      assert events[..0] == [];
    }
  }

  /** A poll after the dispatch has returned reports the exit code and the flag of the last `TaskDone` the job
      sent, whatever it printed. */
  lemma PollAfterReturn(startedAt: nat, hasDeadline: bool, events: seq<Event>, now: nat, description: string,
                        jobId: nat, parse: seq<Byte> -> Option<map<string, Value>>, i: nat)
    requires Run(Start(startedAt, hasDeadline), events).watcher.Watching?
    requires var sent := Step(Run(Start(startedAt, hasDeadline), events), DispatchReturns(now, description)).emitted;
      i < |sent| && sent[i].TaskDone? && forall j :: i < j < |sent| ==> !sent[j].TaskDone?
    ensures var t := Step(Run(Start(startedAt, hasDeadline), events), DispatchReturns(now, description));
      var v := Status(jobId, t.entry, parse);
      "rc" in v && v["rc"] == Int(t.emitted[i].exitCode) && "changed" in v && v["changed"] == Flag(t.emitted[i].changed)
  {
    hide Run, Step, Status;
    var start := Start(startedAt, hasDeadline);
    var s := Run(start, events);
    var t := Step(s, DispatchReturns(now, description));
    var taken := Taken(start, events) + StampAll(s.queue, now);
    ReturnedOutcome(startedAt, hasDeadline, events, now, description);
    assert forall j :: 0 <= j < |taken| ==> taken[j].m == t.emitted[j];
    assert LastDone(taken, i);
    RunConcat(start, events, [DispatchReturns(now, description)]);
    EndedFinished(startedAt, hasDeadline, events, now, description);
    StatusIsHonest(jobId, t.entry, parse);
  }

  lemma EndedFinished(startedAt: nat, hasDeadline: bool, events: seq<Event>, now: nat, description: string)
    requires Run(Start(startedAt, hasDeadline), events).watcher.Watching?
    ensures Step(Run(Start(startedAt, hasDeadline), events), DispatchReturns(now, description)).entry.finishedAt.Some?
  {
    EveryRun(startedAt, hasDeadline, events);
    StepKeeps(Run(Start(startedAt, hasDeadline), events), DispatchReturns(now, description));
  }
}
