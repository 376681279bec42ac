/** What a run of the push worker does with the reports themselves: every reported item carries the report it
    was made from, so does every row of the server, and a network that accepts everything gets everything. */
module PushRuns {
  import opened Options
  import opened PushWorker
  import Sequences

  // ---------- items carry the reports ----------

  /** The reports made while the sender was alive, in order. */
  function Reports(events: seq<Event>): seq<Report> {
    if events == [] || events[0].DropSender? then []
    else (if events[0].OnTask? then [events[0].report] else []) + Reports(events[1..])
  }

  predicate Carry(items: seq<Item>, reports: seq<Report>) {
    |items| == |reports|
    && forall i :: 0 <= i < |items| ==> items[i].dims == reports[i].dims && items[i].body == reports[i].body
  }

  lemma StepCarries(s: State, e: Event, so_far: seq<Report>)
    requires Carry(s.reported, so_far)
    ensures Carry(Step(s, e).reported, so_far + if s.senderAlive && e.OnTask? then [e.report] else [])
    ensures Step(s, e).senderAlive == (s.senderAlive && !e.DropSender?)
  {
    hide Upsert, Items;
    Sequences.NothingAdded(so_far);
    ReceivingKeepsReported(s);
    match e
    case Attempt(fate) => AttemptKeepsReported(s, fate);
    case _ =>
  }

  lemma ReceivingKeepsReported(s: State)
    ensures RecvStep(s).reported == s.reported && RecvStep(s).senderAlive == s.senderAlive
    ensures forall next :: StartFlush(s, next).reported == s.reported && StartFlush(s, next).senderAlive == s.senderAlive
  {
  }

  lemma AttemptKeepsReported(s: State, fate: Fate)
    ensures AttemptStep(s, fate).reported == s.reported && AttemptStep(s, fate).senderAlive == s.senderAlive
  {
  }

  lemma {:induction false} RunCarries(s: State, events: seq<Event>, so_far: seq<Report>)
    requires Carry(s.reported, so_far)
    ensures Carry(Run(s, events).reported, so_far + if s.senderAlive then Reports(events) else [])
    decreases |events|
  {
    hide Step, Carry;
    if events == [] {
      Sequences.NothingAdded(so_far);
    } else {
      var e := events[0];
      var now := if s.senderAlive && e.OnTask? then [e.report] else [];
      StepCarries(s, e, so_far);
      RunCarries(Step(s, e), events[1..], so_far + now);
      var later := if Step(s, e).senderAlive then Reports(events[1..]) else [];
      Sequences.Associative(so_far, now, later);
      Sequences.NothingAdded(now);
      Sequences.NothingAdded(later);
    }
  }

  /** In every run the reported items are the reports: as many, in order, each with its dimensions and body. */
  lemma ReportedAreReports(events: seq<Event>)
    ensures Carry(Run(Init(), events).reported, Reports(events))
  {
    hide Run;
    RunCarries(Init(), events, []);
    Sequences.NothingAdded(Reports(events));
  }

  /** In every run: the server has a row for given dimensions exactly if one of the reports that reached it has
      them, and the row carries the body of the last of these. */
  lemma StoreCarriesReports(events: seq<Event>, d: Dimensions)
    ensures var s, reports := Run(Init(), events), Reports(events);
      s.applied <= |reports|
      && (d in s.store <==> exists i :: 0 <= i < s.applied && reports[i].dims == d)
      && (forall i :: 0 <= i < s.applied && reports[i].dims == d
                      && (forall j :: i < j < s.applied ==> reports[j].dims != d) ==>
            d in s.store && s.store[d].body == reports[i].body && s.store[d].dims == d)
  {
    hide Run, Latest;
    var s, reports := Run(Init(), events), Reports(events);
    ReportedAreReports(events);
    StoreIsLatest(events, d);
    var there := s.reported[..s.applied];
    LatestIs(there, d);
    assert forall i :: 0 <= i < s.applied ==> there[i] == s.reported[i];
    if d in s.store {
      var last :| 0 <= last < |there| && there[last] == s.store[d] && there[last].dims == d
                  && forall j :: last < j < |there| ==> there[j].dims != d;
      assert reports[last].dims == d;
    }
  }

  // ---------- a network that accepts everything ----------

  const GOOD: Event := Attempt(Fate(true, Success))

  function Tasks(reports: seq<Report>): seq<Event> {
    if reports == [] then [] else [OnTask(reports[0])] + Tasks(reports[1..])
  }

  /** n rounds of taking a message, each with an accepted POST if one is due. */
  function Rounds(n: nat): seq<Event> {
    if n == 0 then [] else [Recv, GOOD] + Rounds(n - 1)
  }

  /** Batches of sixty-four, and the rest. */
  function Batches(items: seq<Item>): seq<Post>
    decreases |items|
  {
    if items == [] then []
    else if |items| < 64 then [ItemsPost(items)]
    else [ItemsPost(items[..64])] + Batches(items[64..])
  }

  function Queued(items: seq<Item>): seq<Msg> {
    if items == [] then [FinalizeMsg] else [ItemMsg(items[0])] + Queued(items[1..])
  }

  /** Waiting with less than a batch in the buffer and the items and the marker on the channel. */
  predicate Draining(s: State, items: seq<Item>) {
    s.pc.Idle? && |s.buf| < 64 && s.channel == Queued(items) && s.dropped == []
  }

  lemma RunTwo(s: State, a: Event, b: Event, rest: seq<Event>)
    ensures Run(s, [a, b] + rest) == Run(Step(Step(s, a), b), rest)
  {
    hide Step;
    var events := [a, b] + rest;
    assert events[1..] == [b] + rest && ([b] + rest)[1..] == rest;
  }

  /** One round on an item. */
  lemma RoundOfItem(s: State, items: seq<Item>)
    requires Draining(s, items) && items != []
    ensures var t := Step(Step(s, Recv), GOOD);
      Draining(t, items[1..]) && t.reported == s.reported
      && (|s.buf| < 63 ==> t.buf == s.buf + [items[0]] && t.posts == s.posts && t.acked == s.acked)
      && (|s.buf| == 63 ==> t.buf == [] && t.posts == s.posts + [ItemsPost(s.buf + [items[0]])]
                            && t.acked == s.acked + (s.buf + [items[0]]))
  {
    hide Upsert;
    var q := Queued(items);
    assert q[0] == ItemMsg(items[0]) && q[1..] == Queued(items[1..]);
  }

  /** The last round takes the marker; the accepted POSTs behind it flush the rest and finalize. */
  lemma LastRound(s: State)
    requires Draining(s, [])
    ensures var t := Step(Step(Step(s, Recv), GOOD), GOOD);
      t.pc.Done? && t.reported == s.reported && t.dropped == [] && t.buf == [] && t.acked == s.acked + s.buf
      && t.posts == s.posts + (Batches(s.buf) + [FinalizePost])
  {
    hide Upsert;
    assert s.channel == [FinalizeMsg] && s.channel[1..] == [];
    var t1 := Step(s, Recv);
    var t2 := Step(t1, GOOD);
    var t3 := Step(t2, GOOD);
    assert Items([]) == [] && s.dropped + [] == [];
    if s.buf == [] {
      assert t1.pc == Finalizing(0) && t2.pc == Done && t3 == t2;
      assert Batches(s.buf) == [];
      Sequences.NothingAdded([FinalizePost]);
      Sequences.NothingAdded(s.acked);
    } else {
      assert t1.pc == Posting(0, ThenFinalize) && t2.pc == Finalizing(0);
      assert Batches(s.buf) == [ItemsPost(s.buf)];
      Sequences.Associative(s.posts, [ItemsPost(s.buf)], [FinalizePost]);
    }
  }

  lemma {:induction false} Drains(s: State, items: seq<Item>)
    requires Draining(s, items)
    ensures var t := Run(s, Rounds(|items| + 1) + [GOOD]);
      t.pc.Done? && t.reported == s.reported && t.dropped == [] && t.buf == [] && t.acked == s.acked + (s.buf + items)
      && t.posts == s.posts + (Batches(s.buf + items) + [FinalizePost])
    decreases |items|
  {
    hide Step, Run, Draining;
    var rounds := Rounds(|items| + 1);
    var rest := Rounds(|items|);
    assert rounds == [Recv, GOOD] + rest;
    Sequences.Associative([Recv, GOOD], rest, [GOOD]);
    RunTwo(s, Recv, GOOD, rest + [GOOD]);
    var t := Step(Step(s, Recv), GOOD);
    if items == [] {
      assert rest + [GOOD] == [GOOD];
      RunOne(t, GOOD);
      LastRound(s);
      Sequences.NothingAdded(s.buf);
    } else {
      RoundOfItem(s, items);
      Drains(t, items[1..]);
      assert items == [items[0]] + items[1..];
      Sequences.Associative(s.buf, [items[0]], items[1..]);
      DrainingFacts(s, items);
      if |s.buf| == 63 {
        var batch := s.buf + [items[0]];
        Sequences.NothingAdded(items[1..]);
        Sequences.TakeDrop(batch, items[1..]);
        Sequences.Associative(s.acked, batch, items[1..]);
        var later := Batches(items[1..]) + [FinalizePost];
        Sequences.Associative(s.posts, [ItemsPost(batch)], later);
        Sequences.Associative([ItemsPost(batch)], Batches(items[1..]), [FinalizePost]);
      }
    }
  }

  lemma DrainingFacts(s: State, items: seq<Item>)
    requires Draining(s, items)
    ensures |s.buf| < 64
  {
  }

  lemma RunOne(s: State, e: Event)
    ensures Run(s, [e]) == Step(s, e)
  {
    hide Step;
    assert [e][1..] == [];
    RunNothing(Step(s, e));
  }

  lemma QueuedIs(items: seq<Item>, msgs: seq<Msg>)
    requires |msgs| == |items| && forall i :: 0 <= i < |items| ==> msgs[i] == ItemMsg(items[i])
    ensures msgs + [FinalizeMsg] == Queued(items)
    decreases |items|
  {
    if items == [] {
      Sequences.NothingAdded([FinalizeMsg]);
    } else {
      QueuedIs(items[1..], msgs[1..]);
      Sequences.OffTheFront(msgs, [FinalizeMsg]);
    }
  }

  /** While nothing is received, every report is queued. */
  predicate Collecting(s: State) {
    s.pc.Idle? && s.senderAlive && s.buf == [] && s.acked == [] && s.dropped == [] && s.posts == [] && s.finishedAt.None?
    && |s.channel| == |s.reported| && forall i :: 0 <= i < |s.reported| ==> s.channel[i] == ItemMsg(s.reported[i])
  }

  lemma {:induction false} TasksCollect(s: State, reports: seq<Report>)
    requires Collecting(s)
    ensures Collecting(Run(s, Tasks(reports)))
    decreases |reports|
  {
    hide Upsert;
    if reports != [] {
      var next := Step(s, OnTask(reports[0]));
      assert Tasks(reports)[1..] == Tasks(reports[1..]);
      TasksCollect(next, reports[1..]);
    }
  }

  lemma {:induction false} ReportsOfTasks(reports: seq<Report>, rest: seq<Event>)
    ensures Reports(Tasks(reports) + rest) == reports + Reports(rest)
    decreases |reports|
  {
    if reports == [] {
      Sequences.NothingAdded(rest);
      Sequences.NothingAdded(Reports(rest));
    } else {
      Sequences.OffTheFront(Tasks(reports), rest);
      assert Tasks(reports)[1..] == Tasks(reports[1..]);
      ReportsOfTasks(reports[1..], rest);
      Sequences.Associative([reports[0]], reports[1..], Reports(rest));
      assert reports == [reports[0]] + reports[1..];
    }
  }

  lemma {:induction false} NoReports(n: nat)
    ensures Reports(Rounds(n) + [GOOD]) == []
  {
    var events := Rounds(n) + [GOOD];
    if n == 0 {
      assert events == [GOOD] && [GOOD][1..] == [];
    } else {
      NoReports(n - 1);
      var rest := Rounds(n - 1) + [GOOD];
      assert events[1..] == [GOOD] + rest && events[1..][1..] == rest;
    }
  }

  /** The events of a run without trouble: all reports, `finish`, and a worker whose every POST is accepted. */
  function Healthy(reports: seq<Report>): seq<Event> {
    Tasks(reports) + ([Finish] + (Rounds(|reports| + 1) + [GOOD]))
  }

  /** With a network that accepts every POST the worker ends after sending every report, in order, in batches of
      sixty-four and a rest, then the finalize request; nothing is left or dropped, and all of it has reached the
      server. */
  lemma HealthyRun(reports: seq<Report>)
    ensures var s := Run(Init(), Healthy(reports));
      s.pc.Done? && s.buf == [] && s.dropped == [] && s.acked == s.reported && Carry(s.reported, reports)
      && s.posts == Batches(s.reported) + [FinalizePost]
      && s.applied == |reports|
  {
    hide Step, Inv, Reports, Batches, Rounds, Draining;
    var rest := Rounds(|reports| + 1) + [GOOD];
    var events := Healthy(reports);
    ReportsOfTasks(reports, [Finish] + rest);
    FinishIsNoReport(rest);
    NoReports(|reports| + 1);
    Sequences.NothingAdded(reports);
    ReportedAreReports(events);
    TasksCollect(Init(), reports);
    var s1 := Run(Init(), Tasks(reports));
    RunConcat(Init(), Tasks(reports), [Finish] + rest);
    RunAfter(s1, Finish, rest);
    var s2 := Step(s1, Finish);
    FinishQueues(s1);
    Drains(s2, s1.reported);
    Sequences.NothingAdded(s1.reported);
    ReportedAreReports(Tasks(reports));
    ReportsOfTasks(reports, []);
    Sequences.NothingAdded(Tasks(reports));
    NoEvents();
    EveryRun(events);
    AllApplied(Run(Init(), events));
    Sequences.NothingAdded(Batches(s1.reported) + [FinalizePost]);
  }

  lemma NoEvents()
    ensures Reports([]) == []
  {
  }

  lemma FinishIsNoReport(rest: seq<Event>)
    ensures Reports([Finish] + rest) == Reports(rest)
  {
    assert ([Finish] + rest)[1..] == rest;
    Sequences.NothingAdded(Reports(rest));
  }

  lemma FinishQueues(s: State)
    requires Collecting(s)
    ensures var t := Step(s, Finish);
      Draining(t, s.reported) && t.reported == s.reported && t.buf == [] && t.acked == [] && t.posts == []
  {
    QueuedIs(s.reported, s.channel);
  }

  lemma AllApplied(s: State)
    requires Inv(s) && s.acked == s.reported && s.buf == []
    ensures s.applied == |s.reported|
  {
  }

  // ---------- retries ----------

  predicate Retryable(f: Fate) {
    f.reply == Transient || f.reply == NoReply
  }

  /** A batch is tried at most five times: after fewer failures it is still being tried, after the fifth it is
      given up for now and kept in the buffer. */
  lemma {:induction false} FiveAttempts(s: State, k: nat, fates: seq<Fate>)
    requires s.pc == Posting(k, Loop) && k + |fates| <= 5 && fates != []
    requires forall i :: 0 <= i < |fates| ==> Retryable(fates[i])
    ensures var t := Run(s, Attempts(fates));
      t.buf == s.buf && t.acked == s.acked && |t.posts| == |s.posts| + |fates|
      && (if k + |fates| < 5 then t.pc == Posting(k + |fates|, Loop) else t.pc == Idle && !t.lastFlushOk)
    decreases |fates|
  {
    hide Upsert;
    var events := Attempts(fates);
    var t := Step(s, events[0]);
    assert events[0] == Attempt(fates[0]) && events[1..] == Attempts(fates[1..]);
    if |fates| == 1 {
      assert events[1..] == [];
    } else {
      FiveAttempts(t, k + 1, fates[1..]);
    }
  }

  /** A rejection ends the attempts at once, and success ends them with the batch acknowledged. */
  lemma OneAttempt(s: State, k: nat, fate: Fate)
    requires s.pc == Posting(k, Loop)
    ensures var t := Step(s, Attempt(fate));
      (fate.reply == Rejected ==> t.pc == Idle && t.buf == s.buf && t.acked == s.acked && !t.lastFlushOk)
      && (fate.reply == Success ==> t.pc == Idle && t.buf == [] && t.acked == s.acked + s.buf && t.lastFlushOk)
      && t.posts == s.posts + [ItemsPost(s.buf)]
  {
  }

  /** The flush timer sends whatever is in the buffer. */
  lemma TickSends(s: State)
    requires s.pc.Idle? && s.buf != []
    ensures var t := Step(Step(s, FlushTick), GOOD);
      t.pc == Idle && t.buf == [] && t.acked == s.acked + s.buf && t.posts == s.posts + [ItemsPost(s.buf)]
  {
  }
}
