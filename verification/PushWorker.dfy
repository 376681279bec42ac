/** `report_http.rs`: the batching push worker against a network that may apply, drop, reject or
    lose the reply to any POST.

    `Step` is one move of the run: the reporter, the worker or the network.  The network's choices are
    part of the event, so a theorem over all event sequences is a theorem over all networks and all
    interleavings. */
module PushWorker {
  import opened Options
  import Sequences

  const BATCH_MAX: nat := 64
  const MAX_RETRIES: nat := 4
  const SEQUENCES: nat := 0x1_0000_0000

  /** The pivot coordinates the server upserts by. */
  datatype Dimensions = Dimensions(host: string, task: string, play: string)

  datatype Report = Report(dims: Dimensions, body: string)

  datatype Item = Item(sequence: nat, dims: Dimensions, body: string)

  datatype Msg = ItemMsg(item: Item) | FinalizeMsg

  datatype Reply =
    | Success
    | Rejected     // 4xx other than 429
    | Transient    // 429, 5xx and every other status
    | NoReply      // the request or its reply was lost

  /** What the network does with one POST.  A server that answers 2xx has applied the body; in every
      other case it may or may not have. */
  datatype FateRaw = Fate(applied: bool, reply: Reply)
  type Fate = f: FateRaw | f.reply.Success? ==> f.applied witness Fate(true, Success)

  datatype Next = Loop | ThenFinalize | ThenExit

  /** Where the worker is: between messages, inside a retry loop, or gone. */
  datatype Pc =
    | Idle
    | Posting(attempt: nat, next: Next)
    | Finalizing(attempt: nat)
    | Done

  datatype Post = ItemsPost(items: seq<Item>) | FinalizePost

  datatype State = State(
    reported: seq<Item>,          // every item handed to `on_task`, in order
    nextSequence: nat,
    senderAlive: bool,
    channel: seq<Msg>,
    buf: seq<Item>,
    pc: Pc,
    acked: seq<Item>,             // items of every batch that was answered with success
    dropped: seq<Item>,           // items no worker will ever read
    store: map<Dimensions, Item>, // the server
    applied: nat,                 // how many reported items have reached the server
    lastFlushOk: bool,
    finishedAt: Option<nat>,      // how many items had been reported at the first `finish`
    posts: seq<Post>              // every POST attempt, in order
  )

  datatype Event =
    | OnTask(report: Report)
    | Finish
    | DropSender
    | Recv
    | FlushTick
    | RenewTick
    | Attempt(fate: Fate)

  function Init(): State {
    State([], 0, true, [], [], Idle, [], [], map[], 0, true, None, [])
  }

  function Items(msgs: seq<Msg>): seq<Item> {
    if msgs == [] then []
    else (if msgs[0].ItemMsg? then [msgs[0].item] else []) + Items(msgs[1..])
  }

  /** The idempotent upsert of a batch, keyed by dimensions. */
  function Upsert(store: map<Dimensions, Item>, items: seq<Item>): map<Dimensions, Item>
    decreases |items|
  {
    if items == [] then store else Upsert(store[items[0].dims := items[0]], items[1..])
  }

  // ---------- the worker ----------

  function AfterFlush(s: State, next: Next): State {
    match next
    case Loop => s.(pc := Idle)
    case ThenFinalize => s.(pc := Finalizing(0))
    case ThenExit => Exit(s)
  }

  /** The worker returns and its receiver is dropped, with whatever is still queued. */
  function Exit(s: State): State {
    s.(pc := Done, dropped := s.dropped + Items(s.channel), channel := [])
  }

  /** `flush_items`: nothing to do for an empty buffer, otherwise a retry loop starts. */
  function StartFlush(s: State, next: Next): State {
    if s.buf == [] then AfterFlush(s.(lastFlushOk := true), next) else s.(pc := Posting(0, next))
  }

  function RecvStep(s: State): State {
    if s.channel == [] then (if s.senderAlive then s else StartFlush(s, ThenExit))
    else
      var s' := s.(channel := s.channel[1..]);
      match s.channel[0]
      case ItemMsg(item) =>
        var s'' := s'.(buf := s.buf + [item]);
        if |s''.buf| >= BATCH_MAX then StartFlush(s'', Loop) else s''
      case FinalizeMsg => StartFlush(s', ThenFinalize)
  }

  /** One POST of `post_with_retry`: stop on success or rejection, retry otherwise, at most 1 + MAX_RETRIES times. */
  function AttemptStep(s: State, fate: Fate): State {
    match s.pc
    case Posting(k, next) =>
      var s' := s.(posts := s.posts + [ItemsPost(s.buf)],
                   store := if fate.applied then Upsert(s.store, s.buf) else s.store,
                   applied := if fate.applied then |s.acked| + |s.buf| else s.applied);
      if fate.reply.Success? then AfterFlush(s'.(acked := s.acked + s.buf, buf := [], lastFlushOk := true), next)
      else if fate.reply.Rejected? || k >= MAX_RETRIES then AfterFlush(s'.(lastFlushOk := false), next)
      else s'.(pc := Posting(k + 1, next))
    case Finalizing(k) =>
      var s' := s.(posts := s.posts + [FinalizePost]);
      if fate.reply.Success? || fate.reply.Rejected? || k >= MAX_RETRIES then Exit(s')
      else s'.(pc := Finalizing(k + 1))
    case _ => s
  }

  function Step(s: State, e: Event): State {
    match e
    case OnTask(report) =>
      if !s.senderAlive then s
      else
        var item := Item(s.nextSequence, report.dims, report.body);
        var s' := s.(reported := s.reported + [item], nextSequence := (s.nextSequence + 1) % SEQUENCES);
        if s.pc.Done? then s'.(dropped := s.dropped + [item]) else s'.(channel := s.channel + [ItemMsg(item)])
    case Finish =>
      if !s.senderAlive || s.pc.Done? then s
      else s.(channel := s.channel + [FinalizeMsg],
              finishedAt := if s.finishedAt.None? then Some(|s.reported|) else s.finishedAt)
    case DropSender => s.(senderAlive := false)
    case Recv => if s.pc.Idle? then RecvStep(s) else s
    case FlushTick => if s.pc.Idle? then StartFlush(s, Loop) else s
    case RenewTick => s
    case Attempt(fate) => AttemptStep(s, fate)
  }

  function Run(s: State, events: seq<Event>): State
    decreases |events|
  {
    if events == [] then s else Run(Step(s, events[0]), events[1..])
  }

  // ---------- the invariant ----------

  /** Nothing is lost, duplicated or reordered between the reporter and the server. */
  predicate InOrder(s: State) {
    s.reported == s.acked + s.buf + Items(s.channel) + s.dropped
    && (s.dropped != [] ==> s.pc.Done?)
    && (s.pc.Done? ==> s.channel == [])
  }

  predicate Numbered(s: State) {
    s.nextSequence == |s.reported| % SEQUENCES
    && forall i :: 0 <= i < |s.reported| ==> s.reported[i].sequence == i % SEQUENCES
  }

  /** The server holds exactly what uploading the first `applied` reported items once would give. */
  predicate ServerIsPrefix(s: State) {
    |s.acked| <= s.applied <= |s.acked| + |s.buf| <= |s.reported|
    && s.store == Upsert(map[], s.reported[..s.applied])
  }

  predicate AttemptsBounded(s: State) {
    match s.pc
    case Posting(k, _) => k <= MAX_RETRIES && s.buf != []
    case Finalizing(k) => k <= MAX_RETRIES
    case _ => true
  }

  /** A buffer at the batch limit is only ever the leftover of a failed flush. */
  predicate BatchBounded(s: State) {
    s.pc.Idle? && |s.buf| >= BATCH_MAX ==> !s.lastFlushOk
  }

  /** After a successful last flush nothing is left behind. */
  predicate FlushedBeforeFinalize(s: State) {
    (s.pc.Finalizing? || s.pc.Done?) && s.lastFlushOk ==> s.buf == []
  }

  predicate HasMarker(channel: seq<Msg>) {
    channel != [] && (channel[0].FinalizeMsg? || HasMarker(channel[1..]))
  }

  /** The messages in front of the first finalize marker. */
  function BeforeMarker(channel: seq<Msg>): seq<Msg> {
    if channel == [] || channel[0].FinalizeMsg? then [] else [channel[0]] + BeforeMarker(channel[1..])
  }

  /** The worker has taken the finalize marker off the channel. */
  predicate MarkerTaken(s: State) {
    (s.pc.Posting? && s.pc.next.ThenFinalize?) || s.pc.Finalizing? || FinalizeSent(s)
  }

  /** The items reported before `finish` are exactly the ones in front of the marker. */
  predicate Marked(s: State) {
    match s.finishedAt
    case None =>
      !HasMarker(s.channel) && !MarkerTaken(s) && s.dropped == []
      && (s.pc.Posting? && s.pc.next.ThenExit? ==> s.channel == [] && !s.senderAlive)
      && (s.pc.Done? ==> !s.senderAlive)
    case Some(n) =>
      !(s.pc.Posting? && s.pc.next.ThenExit?)
      && if MarkerTaken(s) then |s.acked| + |s.buf| == n
         else !s.pc.Done? && HasMarker(s.channel) && |s.acked| + |s.buf| + |Items(BeforeMarker(s.channel))| == n
  }

  /** No items POST comes after a finalize POST. */
  predicate FinalizeLast(s: State) {
    ItemsThenFinalize(s.posts)
  }

  predicate ItemsThenFinalize(posts: seq<Post>) {
    forall i, j :: 0 <= i < j < |posts| && posts[i].FinalizePost? ==> posts[j].FinalizePost?
  }

  predicate FinalizeSent(s: State) {
    AnyFinalize(s.posts)
  }

  predicate AnyFinalize(posts: seq<Post>) {
    exists i :: 0 <= i < |posts| && posts[i].FinalizePost?
  }

  lemma AppendPost(posts: seq<Post>, post: Post)
    requires ItemsThenFinalize(posts) && (post.FinalizePost? || !AnyFinalize(posts))
    ensures ItemsThenFinalize(posts + [post])
    ensures AnyFinalize(posts + [post]) == (post.FinalizePost? || AnyFinalize(posts))
  {
    var longer := posts + [post];
    assert longer[|posts|] == post;
    if AnyFinalize(posts) {
      var i :| 0 <= i < |posts| && posts[i].FinalizePost?;
      assert longer[i].FinalizePost?;
    }
  }

  predicate FinalizeOnlyAtEnd(s: State) {
    FinalizeLast(s) && (FinalizeSent(s) ==> s.pc.Finalizing? || s.pc.Done?)
  }

  predicate Inv(s: State) {
    InOrder(s) && Numbered(s) && ServerIsPrefix(s) && AttemptsBounded(s) && BatchBounded(s)
    && FlushedBeforeFinalize(s) && FinalizeOnlyAtEnd(s) && Marked(s)
  }

  // ---------- facts about upserts ----------

  function Get(store: map<Dimensions, Item>, d: Dimensions): Option<Item> {
    if d in store then Some(store[d]) else None
  }

  /** The last item of a batch with the given key. */
  function Latest(items: seq<Item>, d: Dimensions): Option<Item> {
    if items == [] then None
    else
      var later := Latest(items[1..], d);
      if later.None? && items[0].dims == d then Some(items[0]) else later
  }

  lemma {:induction false} UpsertGet(store: map<Dimensions, Item>, items: seq<Item>, d: Dimensions)
    ensures Get(Upsert(store, items), d) == if Latest(items, d).Some? then Latest(items, d) else Get(store, d)
    decreases |items|
  {
    if items != [] { UpsertGet(store[items[0].dims := items[0]], items[1..], d); }
  }

  lemma {:induction false} LatestOfPrefix(prefix: seq<Item>, items: seq<Item>, d: Dimensions)
    requires prefix <= items && Latest(items, d).None?
    ensures Latest(prefix, d).None?
  {
    if prefix != [] { LatestOfPrefix(prefix[1..], items[1..], d); }
  }

  lemma {:induction false} UpsertConcat(store: map<Dimensions, Item>, a: seq<Item>, b: seq<Item>)
    ensures Upsert(store, a + b) == Upsert(Upsert(store, a), b)
    decreases |a|
  {
    if a == [] {
      assert a + b == b;
    } else {
      assert (a + b)[1..] == a[1..] + b;
      UpsertConcat(store[a[0].dims := a[0]], a[1..], b);
    }
  }

  lemma SameStore(s1: map<Dimensions, Item>, s2: map<Dimensions, Item>)
    requires forall d :: Get(s1, d) == Get(s2, d)
    ensures s1 == s2
  {
    forall d
      ensures (d in s1 <==> d in s2) && (d in s1 ==> s1[d] == s2[d])
    {
      assert Get(s1, d) == Get(s2, d);
    }
  }

  /** Applying part of a batch before the whole of it makes no difference. */
  lemma ReplayPrefix(base: map<Dimensions, Item>, again: seq<Item>, batch: seq<Item>)
    requires again <= batch
    ensures Upsert(Upsert(base, again), batch) == Upsert(base, batch)
  {
    forall d
      ensures Get(Upsert(Upsert(base, again), batch), d) == Get(Upsert(base, batch), d)
    {
      hide Upsert, Latest, Get;
      UpsertGet(Upsert(base, again), batch, d);
      UpsertGet(base, batch, d);
      UpsertGet(base, again, d);
      if Latest(batch, d).None? { LatestOfPrefix(again, batch, d); }
    }
    SameStore(Upsert(Upsert(base, again), batch), Upsert(base, batch));
  }

  /** Sending a batch again, or again with more behind it, is the same as sending it once. */
  lemma ResendIsInvisible(items: seq<Item>, from: nat, applied: nat, to: nat)
    requires from <= applied <= to <= |items|
    ensures Upsert(Upsert(map[], items[..applied]), items[from..to]) == Upsert(map[], items[..to])
  {
    hide Upsert;
    var again, batch := items[from..applied], items[from..to];
    assert items[..applied] == items[..from] + again;
    assert items[..to] == items[..from] + batch;
    UpsertConcat(map[], items[..from], again);
    UpsertConcat(map[], items[..from], batch);
    assert again <= batch;
    ReplayPrefix(Upsert(map[], items[..from]), again, batch);
  }

  // ---------- every step keeps the invariant ----------

  lemma {:induction false} ItemsConcat(a: seq<Msg>, b: seq<Msg>)
    ensures Items(a + b) == Items(a) + Items(b)
    decreases |a|
  {
    if a == [] {
      Sequences.NothingAdded(b);
      Sequences.NothingAdded(Items(b));
    } else {
      Sequences.OffTheFront(a, b);
      ItemsConcat(a[1..], b);
      var head := if a[0].ItemMsg? then [a[0].item] else [];
      Sequences.Associative(head, Items(a[1..]), Items(b));
    }
  }

  lemma ItemsNone()
    ensures Items([]) == []
  {
  }

  lemma ItemsOne(m: Msg)
    ensures Items([m]) == if m.ItemMsg? then [m.item] else []
  {
    assert [m][1..] == [];
  }

  lemma {:induction false} MarkerConcat(a: seq<Msg>, b: seq<Msg>)
    ensures HasMarker(a + b) == (HasMarker(a) || HasMarker(b))
    ensures BeforeMarker(a + b) == if HasMarker(a) then BeforeMarker(a) else a + BeforeMarker(b)
  {
    if a == [] {
      Sequences.NothingAdded(b);
      Sequences.NothingAdded(BeforeMarker(b));
    } else {
      Sequences.OffTheFront(a, b);
      Sequences.OffTheFront(a, BeforeMarker(b));
      MarkerConcat(a[1..], b);
    }
  }

  lemma NoMarkerInNothing()
    ensures BeforeMarker([]) == [] && !HasMarker([])
  {
  }

  lemma MarkerOfItem(item: Item)
    ensures !HasMarker([ItemMsg(item)])
  {
  }

  lemma OnTaskKeeps(s: State, report: Report)
    requires Inv(s)
    ensures Inv(Step(s, OnTask(report)))
  {
    hide Upsert, Items, HasMarker, BeforeMarker, ItemsThenFinalize, AnyFinalize;
    assert BeforeMarker([]) == [] && !HasMarker([]) by { NoMarkerInNothing(); }
    if s.senderAlive {
      var item := Item(s.nextSequence, report.dims, report.body);
      ItemsConcat(s.channel, [ItemMsg(item)]);
      ItemsOne(ItemMsg(item));
      MarkerConcat(s.channel, [ItemMsg(item)]);
      MarkerOfItem(item);
      OnTaskOrder(s, item);
      OnTaskNumbers(s, item);
      assert (s.reported + [item])[..s.applied] == s.reported[..s.applied];
    }
  }

  lemma OnTaskOrder(s: State, item: Item)
    requires InOrder(s)
    requires Items(s.channel + [ItemMsg(item)]) == Items(s.channel) + [item]
    ensures s.reported + [item] == s.acked + s.buf + Items(s.channel) + (s.dropped + [item])
    ensures s.dropped == [] ==> s.reported + [item] == s.acked + s.buf + Items(s.channel + [ItemMsg(item)]) + []
  {
  }

  lemma OnTaskNumbers(s: State, item: Item)
    requires Numbered(s) && item.sequence == s.nextSequence
    ensures (s.nextSequence + 1) % SEQUENCES == |s.reported + [item]| % SEQUENCES
    ensures forall i :: 0 <= i < |s.reported + [item]| ==> (s.reported + [item])[i].sequence == i % SEQUENCES
  {
  }

  lemma FinishKeeps(s: State)
    requires Inv(s)
    ensures Inv(Step(s, Finish))
  {
    ItemsConcat(s.channel, [FinalizeMsg]);
    ItemsOne(FinalizeMsg);
    MarkerConcat(s.channel, [FinalizeMsg]);
    if !HasMarker(s.channel) { NoMarkerNoPrefix(s.channel); }
    assert BeforeMarker([FinalizeMsg]) == [] && s.channel + [] == s.channel;
    assert Items(s.channel) + [] == Items(s.channel);
  }

  lemma {:induction false} NoMarkerNoPrefix(channel: seq<Msg>)
    requires !HasMarker(channel)
    ensures BeforeMarker(channel) == channel
  {
    if channel != [] { NoMarkerNoPrefix(channel[1..]); }
  }

  /** What holds between taking a message and ending the flush it may cause. */
  predicate InvBusy(s: State, next: Next) {
    InOrder(s) && Numbered(s) && ServerIsPrefix(s) && s.dropped == [] && !s.pc.Done?
    && FinalizeLast(s) && !FinalizeSent(s)
    && (next.ThenExit? ==> s.finishedAt.None? && s.channel == [] && !s.senderAlive)
    && match s.finishedAt
       case None => !HasMarker(s.channel) && !next.ThenFinalize?
       case Some(n) =>
         if next.ThenFinalize? then |s.acked| + |s.buf| == n
         else HasMarker(s.channel) && |s.acked| + |s.buf| + |Items(BeforeMarker(s.channel))| == n
  }

  lemma AfterFlushKeeps(s: State, next: Next)
    requires InvBusy(s, next)
    requires |s.buf| >= BATCH_MAX ==> !s.lastFlushOk
    requires s.lastFlushOk ==> s.buf == []
    ensures Inv(AfterFlush(s, next))
  {
  }

  lemma StartFlushKeeps(s: State, next: Next)
    requires InvBusy(s, next)
    ensures Inv(StartFlush(s, next))
  {
    if s.buf == [] { AfterFlushKeeps(s.(lastFlushOk := true), next); }
  }

  lemma ItemsFirst(channel: seq<Msg>)
    requires channel != []
    ensures Items(channel) == (if channel[0].ItemMsg? then [channel[0].item] else []) + Items(channel[1..])
    ensures HasMarker(channel) == (channel[0].FinalizeMsg? || HasMarker(channel[1..]))
    ensures channel[0].ItemMsg? ==> |Items(BeforeMarker(channel))| == 1 + |Items(BeforeMarker(channel[1..]))|
    ensures channel[0].FinalizeMsg? ==> Items(BeforeMarker(channel)) == []
  {
    if channel[0].ItemMsg? { assert BeforeMarker(channel)[1..] == BeforeMarker(channel[1..]); }
  }

  /** An item moves from the front of the channel to the end of the buffer. */
  lemma RecvItemKeeps(s: State, item: Item, rest: seq<Msg>)
    requires Inv(s) && s.pc.Idle? && s.channel == [ItemMsg(item)] + rest
    ensures InvBusy(s.(channel := rest, buf := s.buf + [item]), Loop)
  {
    ItemsFirst(s.channel);
    assert s.channel[1..] == rest;
    hide Upsert, Items, HasMarker, BeforeMarker, ItemsThenFinalize, AnyFinalize;
    MoveOne(s.acked, s.buf, item, Items(rest));
  }

  lemma MoveOne(acked: seq<Item>, buf: seq<Item>, item: Item, rest: seq<Item>)
    ensures acked + buf + ([item] + rest) + [] == acked + (buf + [item]) + rest + []
    ensures |acked| + |buf + [item]| == |acked| + |buf| + 1
  {
  }

  lemma RecvMarkerKeeps(s: State, rest: seq<Msg>)
    requires Inv(s) && s.pc.Idle? && s.channel == [FinalizeMsg] + rest
    ensures InvBusy(s.(channel := rest), ThenFinalize)
  {
    ItemsFirst(s.channel);
    assert s.channel[1..] == rest;
    hide Upsert, Items, HasMarker, BeforeMarker, ItemsThenFinalize, AnyFinalize;
    assert [] + Items(rest) == Items(rest);
  }

  lemma RecvKeeps(s: State)
    requires Inv(s) && s.pc.Idle?
    ensures Inv(RecvStep(s))
  {
    if s.channel == [] {
      if !s.senderAlive { StartFlushKeeps(s, ThenExit); }
    } else {
      hide Inv, StartFlush;
      var rest := s.channel[1..];
      assert s.channel == [s.channel[0]] + rest;
      match s.channel[0]
      case ItemMsg(item) =>
        var s' := s.(channel := rest, buf := s.buf + [item]);
        RecvItemKeeps(s, item, rest);
        if |s'.buf| >= BATCH_MAX { StartFlushKeeps(s', Loop); } else { SmallBatchKeeps(s'); }
      case FinalizeMsg =>
        RecvMarkerKeeps(s, rest);
        StartFlushKeeps(s.(channel := rest), ThenFinalize);
    }
  }

  lemma SmallBatchKeeps(s: State)
    requires InvBusy(s, Loop) && s.pc.Idle? && |s.buf| < BATCH_MAX
    ensures Inv(s)
  {
  }

  lemma PostKeeps(s: State, fate: Fate, k: nat, next: Next)
    requires Inv(s) && s.pc == Posting(k, next)
    ensures Inv(AttemptStep(s, fate))
  {
    hide Upsert, Items, HasMarker, BeforeMarker, ItemsThenFinalize, AnyFinalize;
    var n := |s.acked| + |s.buf|;
    AppendPost(s.posts, ItemsPost(s.buf));
    var s' := s.(posts := s.posts + [ItemsPost(s.buf)],
                 store := if fate.applied then Upsert(s.store, s.buf) else s.store,
                 applied := if fate.applied then n else s.applied);
    assert s.reported[|s.acked|..n] == s.buf;
    ResendIsInvisible(s.reported, |s.acked|, s.applied, n);
    assert InvBusy(s', next);
    if fate.reply.Success? {
      var done := s'.(acked := s.acked + s.buf, buf := [], lastFlushOk := true);
      assert done.acked + done.buf == s.acked + s.buf;
      AfterFlushKeeps(done, next);
    } else if fate.reply.Rejected? || k >= MAX_RETRIES {
      AfterFlushKeeps(s'.(lastFlushOk := false), next);
    }
  }

  lemma FinalizeKeeps(s: State, fate: Fate, k: nat)
    requires Inv(s) && s.pc == Finalizing(k)
    ensures Inv(AttemptStep(s, fate))
  {
    hide Upsert, Items, HasMarker, BeforeMarker, ItemsThenFinalize, AnyFinalize;
    AppendPost(s.posts, FinalizePost);
    ItemsNone();
    assert s.acked + s.buf + [] + (s.dropped + Items(s.channel)) == s.acked + s.buf + Items(s.channel) + s.dropped;
  }

  lemma StepKeeps(s: State, e: Event)
    requires Inv(s)
    ensures Inv(Step(s, e))
  {
    match e
    case OnTask(report) => OnTaskKeeps(s, report);
    case Finish => FinishKeeps(s);
    case DropSender =>
    case Recv => if s.pc.Idle? { RecvKeeps(s); }
    case FlushTick => if s.pc.Idle? { StartFlushKeeps(s, Loop); }
    case RenewTick =>
    case Attempt(fate) =>
      match s.pc
      case Posting(k, next) => PostKeeps(s, fate, k, next);
      case Finalizing(k) => FinalizeKeeps(s, fate, k);
      case _ =>
  }

  lemma {:induction false} RunKeeps(s: State, events: seq<Event>)
    requires Inv(s)
    ensures Inv(Run(s, events))
    decreases |events|
  {
    if events != [] {
      StepKeeps(s, events[0]);
      RunKeeps(Step(s, events[0]), events[1..]);
    }
  }

  /** Safety over every run: whatever the network does and however events interleave. */
  lemma EveryRun(events: seq<Event>)
    ensures Inv(Run(Init(), events))
  {
    RunKeeps(Init(), events);
  }

  // ---------- what the invariant means for a run ----------

  /** Once finalize is being sent, everything reported before `finish` was buffered or acknowledged, and if
      the last flush succeeded the server holds exactly those items: none missing, none else. */
  lemma CompleteAtFinalize(events: seq<Event>)
    ensures var s := Run(Init(), events);
      s.pc.Finalizing? || FinalizeSent(s) ==>
        s.finishedAt.Some? && s.finishedAt.value <= |s.reported|
        && s.acked + s.buf == s.reported[..s.finishedAt.value]
        && (s.lastFlushOk ==> s.store == Upsert(map[], s.reported[..s.finishedAt.value]))
  {
    EveryRun(events);
    var s := Run(Init(), events);
    if s.pc.Finalizing? || FinalizeSent(s) {
      assert s.reported[..|s.acked| + |s.buf|] == s.acked + s.buf;
    }
  }

  /** Only items reported after `finish` can be dropped. */
  lemma DroppedOnlyAfterFinish(events: seq<Event>)
    ensures var s := Run(Init(), events);
      s.dropped != [] ==>
        s.finishedAt.Some? && s.finishedAt.value <= |s.reported| && s.dropped == s.reported[s.finishedAt.value..]
  {
    EveryRun(events);
    var s := Run(Init(), events);
    if s.dropped != [] {
      assert Items([]) == [];
      assert s.reported == s.acked + s.buf + s.dropped;
    }
  }

  lemma {:induction false} LatestIs(items: seq<Item>, d: Dimensions)
    ensures match Latest(items, d)
      case None => forall i :: 0 <= i < |items| ==> items[i].dims != d
      case Some(x) =>
        exists i :: 0 <= i < |items| && items[i] == x && x.dims == d
                    && forall j :: i < j < |items| ==> items[j].dims != d
  {
    if items != [] {
      LatestIs(items[1..], d);
      assert forall j :: 1 <= j < |items| ==> items[1..][j - 1] == items[j];
      if Latest(items[1..], d).Some? {
        var i :| 0 <= i < |items[1..]| && items[1..][i] == Latest(items[1..], d).value
                 && forall j :: i < j < |items[1..]| ==> items[1..][j].dims != d;
        assert items[i + 1] == Latest(items, d).value;
      }
    }
  }

  /** The row of every dimensions is the latest of the reported items that have reached the server. */
  lemma StoreIsLatest(events: seq<Event>, d: Dimensions)
    ensures var s := Run(Init(), events);
      s.applied <= |s.reported| && Get(s.store, d) == Latest(s.reported[..s.applied], d)
  {
    EveryRun(events);
    var s := Run(Init(), events);
    UpsertGet(map[], s.reported[..s.applied], d);
  }

  /** An acknowledged item has a row, and within 2^32 reports the row is the item itself exactly if no later item
      with the same dimensions has reached the server. */
  lemma AcknowledgedIsStored(events: seq<Event>, i: nat)
    requires i < |Run(Init(), events).acked|
    ensures var s := Run(Init(), events);
      var item := s.acked[i];
      i < s.applied <= |s.reported| && s.reported[i] == item
      && item.dims in s.store && s.store[item.dims] in s.reported && s.store[item.dims].dims == item.dims
      && ((forall j :: i < j < s.applied ==> s.reported[j].dims != item.dims) ==> s.store[item.dims] == item)
      && (|s.reported| <= SEQUENCES && s.store[item.dims] == item ==>
            forall j :: i < j < s.applied ==> s.reported[j].dims != item.dims)
  {
    EveryRun(events);
    var s := Run(Init(), events);
    hide Inv, Run, Latest;
    AckedAt(s, i);
    var item := s.acked[i];
    var there := s.reported[..s.applied];
    StoreIsLatest(events, item.dims);
    LatestIs(there, item.dims);
    var last :| 0 <= last < |there| && there[last] == s.store[item.dims] && there[last].dims == item.dims
                && forall j :: last < j < |there| ==> there[j].dims != item.dims;
    assert there[last] == s.reported[last];
    assert last >= i;
    if |s.reported| <= SEQUENCES && s.store[item.dims] == item { SameSequence(s, i, last); }
  }

  lemma AckedAt(s: State, i: nat)
    requires Inv(s) && i < |s.acked|
    ensures i < s.applied <= |s.reported| && s.reported[i] == s.acked[i] && s.reported[..s.applied][i] == s.acked[i]
  {
  }

  lemma SameSequence(s: State, i: nat, j: nat)
    requires Inv(s) && i < |s.reported| && j < |s.reported| <= SEQUENCES && s.reported[i] == s.reported[j]
    ensures i == j
  {
  }

  /** Sequence numbers tell two items apart exactly within 2^32 reports. */
  lemma SequencesDistinct(events: seq<Event>)
    ensures var s := Run(Init(), events);
      (forall i, j :: 0 <= i < j < |s.reported| ==> s.reported[i].sequence != s.reported[j].sequence)
      <==> |s.reported| <= SEQUENCES
  {
    EveryRun(events);
    hide Run;
    var s := Run(Init(), events);
    if |s.reported| > SEQUENCES {
      assert s.reported[0].sequence == s.reported[SEQUENCES].sequence;
    } else {
      forall i, j | 0 <= i < j < |s.reported|
        ensures s.reported[i].sequence != s.reported[j].sequence
      {
        assert s.reported[i].sequence == i && s.reported[j].sequence == j;
      }
    }
  }

  // ---------- the worker itself ----------

  function Attempts(fates: seq<Fate>): (events: seq<Event>)
    ensures |events| == |fates|
  {
    seq(|fates|, i requires 0 <= i < |fates| => Attempt(fates[i]))
  }

  lemma {:induction false} RunConcat(s: State, a: seq<Event>, b: seq<Event>)
    ensures Run(s, a + b) == Run(Run(s, a), b)
    decreases |a|
  {
    hide Step;
    if a == [] {
      assert a + b == b;
    } else {
      assert (a + b)[1..] == a[1..] + b;
      RunConcat(Step(s, a[0]), a[1..], b);
    }
  }

  lemma RunSnoc(s: State, events: seq<Event>, e: Event)
    ensures Run(s, events + [e]) == Step(Run(s, events), e)
  {
    hide Step;
    RunConcat(s, events, [e]);
    assert [e][1..] == [];
    assert Run(Run(s, events), [e]) == Run(Step(Run(s, events), e), []);
  }

  /** The network's answers to the at most 1 + MAX_RETRIES POSTs of one retry loop. */
  type Answers = a: seq<Fate> | |a| == MAX_RETRIES + 1
    witness [Fate(true, Success), Fate(true, Success), Fate(true, Success), Fate(true, Success), Fate(true, Success)]

  predicate Retries(f: Fate) {
    f.reply.Transient? || f.reply.NoReply?
  }

  /** Success comes before any rejection and within the attempts allowed. */
  predicate Delivered(answers: Answers) {
    exists k :: 0 <= k <= MAX_RETRIES && answers[k].reply.Success? && forall i :: 0 <= i < k ==> Retries(answers[i])
  }

  /** How many POSTs a retry loop makes from its k-th on: it stops at success or rejection. */
  function Tried(answers: Answers, k: nat): (n: nat)
    requires k <= MAX_RETRIES
    ensures k < n <= MAX_RETRIES + 1
    decreases MAX_RETRIES - k
  {
    if k == MAX_RETRIES || !Retries(answers[k]) then k + 1 else Tried(answers, k + 1)
  }

  function LoopEvents(answers: Answers): seq<Event> {
    Attempts(answers[..Tried(answers, 0)])
  }

  function FlushEvents(buf: seq<Item>, answers: Answers): seq<Event> {
    if buf == [] then [] else LoopEvents(answers)
  }

  /** A ready arm of the select loop with what the network will answer; `closed` says that an empty
      channel has lost its last sender. */
  datatype Arm =
    | RecvReady(answers: Answers, finalAnswers: Answers, closed: bool)
    | FlushReady(answers: Answers)
    | RenewReady

  /** The moves that a received message leads to. */
  function RecvEvents(s: State, answers: Answers, finalAnswers: Answers): seq<Event> {
    [Recv]
    + if s.channel == [] then FlushEvents(s.buf, answers)
      else match s.channel[0]
        case ItemMsg(_) => if |s.buf| + 1 >= BATCH_MAX then LoopEvents(answers) else []
        case FinalizeMsg => FlushEvents(s.buf, answers) + LoopEvents(finalAnswers)
  }

  function ArmEvents(s: State, arm: Arm): seq<Event> {
    match arm
    case FlushReady(answers) => [FlushTick] + FlushEvents(s.buf, answers)
    case RenewReady => [RenewTick]
    case RecvReady(answers, finalAnswers, closed) =>
      if s.channel != [] then RecvEvents(s, answers, finalAnswers)
      else if closed then [DropSender] + RecvEvents(s, answers, finalAnswers)
      else []
  }

  /** The moves of a whole worker: one arm after the other until the worker is done. */
  function WorkerEvents(s: State, arms: seq<Arm>): seq<Event>
    decreases |arms|
  {
    if arms == [] || s.pc.Done? then []
    else ArmEvents(s, arms[0]) + WorkerEvents(Run(s, ArmEvents(s, arms[0])), arms[1..])
  }

  lemma WorkerStep(s: State, arms: seq<Arm>)
    requires arms != [] && !s.pc.Done?
    ensures var next := Run(s, ArmEvents(s, arms[0]));
      Run(s, WorkerEvents(s, arms)) == Run(next, WorkerEvents(next, arms[1..]))
  {
    hide Run, ArmEvents;
    var next := Run(s, ArmEvents(s, arms[0]));
    RunConcat(s, ArmEvents(s, arms[0]), WorkerEvents(next, arms[1..]));
  }

  /** The reporter's handle and its worker.  `world` is the run as `Step` sees it. */
  class PushSink {
    var sequence: nat
    var channel: seq<Msg>
    var receiving: bool  // the worker still holds its end of the channel
    var buf: seq<Item>
    ghost var world: State

    ghost predicate Valid()
      reads this
    {
      Inv(world) && world.nextSequence == sequence && world.channel == channel && world.buf == buf
      && receiving == !world.pc.Done?
    }

    constructor ()
      ensures Valid() && world == Init()
    {
      sequence, channel, receiving, buf := 0, [], true, [];
      world := Init();
    }

    /** A send to a worker that has ended fails, and the failure is ignored. */
    method OnTask(report: Report)
      requires Valid() && world.senderAlive
      modifies this
      ensures Valid() && world == Step(old(world), Event.OnTask(report))
      ensures world.reported == old(world.reported) + [Item(old(sequence), report.dims, report.body)]
      ensures sequence == (old(sequence) + 1) % 0x1_0000_0000
    {
      var item := Item(sequence, report.dims, report.body);
      StepKeeps(world, Event.OnTask(report));
      world := Step(world, Event.OnTask(report));
      sequence := (sequence + 1) % SEQUENCES;
      if receiving {
        channel := channel + [ItemMsg(item)];
      }
    }

    method Finish()
      requires Valid() && world.senderAlive
      modifies this
      ensures Valid() && world == Step(old(world), Event.Finish)
    {
      StepKeeps(world, Event.Finish);
      world := Step(world, Event.Finish);
      if receiving {
        channel := channel + [FinalizeMsg];
      }
    }

    /** The retry loop of `post_with_retry`: success exactly when a POST is answered 2xx before any
        rejection.  At its end the run has left the loop as `AfterFlush` or `Exit` says. */
    method PostWithRetry(answers: Answers) returns (ok: bool)
      requires Inv(world) && InLoop(world, 0)
      modifies this`world
      ensures Inv(world) && world == Run(old(world), LoopEvents(answers))
      ensures ok <==> Delivered(answers)
      ensures Left(old(world), world, ok)
    {
      hide Step, Run, Inv;
      ok := false;
      var attempt := 0;
      var go := true;
      RunNothing(world);
      assert Attempts(answers[..0]) == [];
      while go
        invariant 0 <= attempt <= MAX_RETRIES + 1
        invariant Inv(world) && world == Run(old(world), Attempts(answers[..attempt]))
        invariant go ==> attempt <= MAX_RETRIES && SameBatch(old(world), world, attempt)
        invariant go ==> forall i :: 0 <= i < attempt ==> Retries(answers[i])
        invariant if go then Tried(answers, 0) == Tried(answers, attempt) else Tried(answers, 0) == attempt
        invariant !go ==> ok == Delivered(answers) && Left(old(world), world, ok)
        decreases go, MAX_RETRIES + 1 - attempt
      {
        var fate := answers[attempt];
        StepKeeps(world, Attempt(fate));
        RunSnoc(old(world), Attempts(answers[..attempt]), Attempt(fate));
        AttemptsSnoc(answers, attempt);
        AttemptEffect(old(world), world, fate, attempt);
        world := Step(world, Attempt(fate));
        if fate.reply.Success? {
          ok, go := true, false;
        } else if fate.reply.Rejected? {
          ok, go := false, false;
        } else {
          ok, go := false, attempt < MAX_RETRIES;
        }
        attempt := attempt + 1;
      }
    }

    /** `flush_items`, once `Step` has started it: an empty buffer sends nothing; otherwise the batch is
        cleared exactly if it was delivered. */
    method FlushItems(answers: Answers, ghost next: Next)
      requires Inv(world) && world.buf == buf
      requires buf != [] ==> world.pc == Posting(0, next)
      requires buf == [] ==> !world.pc.Posting?
      modifies this`world, this`buf
      ensures Inv(world) && world == Run(old(world), FlushEvents(old(buf), answers)) && world.buf == buf
      ensures buf == if old(buf) == [] || Delivered(answers) then [] else old(buf)
      ensures if old(buf) == [] then world == old(world) else Left(old(world), world, Delivered(answers))
    {
      hide Step, Run, Inv, LoopEvents;
      RunNothing(world);
      if buf == [] {
        return;
      }
      var ok := PostWithRetry(answers);
      if ok {
        buf := [];
      }
    }

    /** The flush-timer arm of the select loop. */
    method OnFlushTick(answers: Answers)
      requires Valid() && world.pc.Idle?
      modifies this
      ensures Valid() && world.pc.Idle? && world == Run(old(world), [FlushTick] + FlushEvents(old(buf), answers))
    {
      hide Run, Inv, AttemptStep, FlushEvents;
      StepKeeps(world, FlushTick);
      ghost var before := world;
      world := Step(world, FlushTick);
      FlushItems(answers, Loop);
      RunAfter(before, FlushTick, FlushEvents(before.buf, answers));
    }

    /** The receive arm: an item is buffered and flushed with a full batch; the finalize marker flushes the
        tail, sends finalize and ends the worker; a closed channel flushes and ends it. */
    method OnRecv(answers: Answers, finalAnswers: Answers)
      requires Valid() && world.pc.Idle? && (channel != [] || !world.senderAlive)
      modifies this
      ensures Valid() && world == Run(old(world), RecvEvents(old(world), answers, finalAnswers))
      ensures world.pc.Idle? || world.pc.Done?
      ensures world.pc.Done? <==> old(channel) == [] || old(channel)[0].FinalizeMsg?
    {
      hide Run, Inv, AttemptStep, LoopEvents;
      StepKeeps(world, Recv);
      ghost var before := world;
      world := Step(world, Recv);
      ghost var rest: seq<Event> := [];
      RunNothing(world);
      if channel == [] {
        FlushItems(answers, ThenExit);
        rest := FlushEvents(before.buf, answers);
        receiving := false;
      } else if channel[0].ItemMsg? {
        buf := buf + [channel[0].item];
        channel := channel[1..];
        if |buf| >= BATCH_MAX {
          FlushItems(answers, Loop);
          rest := LoopEvents(answers);
        }
      } else {
        channel := channel[1..];
        FlushItems(answers, ThenFinalize);
        var _ := PostWithRetry(finalAnswers);
        rest := FlushEvents(before.buf, answers) + LoopEvents(finalAnswers);
        RunConcat(Step(before, Recv), FlushEvents(before.buf, answers), LoopEvents(finalAnswers));
        channel, receiving := [], false;
      }
      RunAfter(before, Recv, rest);
    }

    /** The select loop of the worker, for any sequence of ready arms; it returns once the worker is done. */
    method RunWorker(arms: seq<Arm>)
      requires Valid() && world.pc.Idle?
      modifies this
      ensures Valid() && world == Run(old(world), WorkerEvents(old(world), arms))
      ensures world.pc.Idle? || world.pc.Done?
    {
      hide Step, Run, Inv, ArmEvents, RecvEvents, FlushEvents;
      var i := 0;
      assert arms[0..] == arms;
      while i < |arms| && receiving
        invariant 0 <= i <= |arms| && Valid() && (world.pc.Idle? || world.pc.Done?)
        invariant Run(old(world), WorkerEvents(old(world), arms)) == Run(world, WorkerEvents(world, arms[i..]))
      {
        ghost var before := world;
        WorkerStep(before, arms[i..]);
        assert arms[i..][0] == arms[i] && arms[i..][1..] == arms[i + 1..];
        RunArm(arms[i]);
        i := i + 1;
      }
      RunNothing(world);
    }

    /** One ready arm. */
    method RunArm(arm: Arm)
      requires Valid() && world.pc.Idle?
      modifies this
      ensures Valid() && world == Run(old(world), ArmEvents(old(world), arm))
      ensures world.pc.Idle? || world.pc.Done?
    {
      hide Step, Run, Inv, RecvEvents, FlushEvents;
      RunNothing(world);
      match arm {
        case FlushReady(answers) =>
          OnFlushTick(answers);
        case RecvReady(answers, finalAnswers, closed) =>
          if channel != [] {
            OnRecv(answers, finalAnswers);
          } else if closed {
            ghost var before := world;
            StepKeeps(world, DropSender);
            DropKeepsRest(world);
            world := Step(world, DropSender);
            ghost var dropped := world;
            OnRecv(answers, finalAnswers);
            SameRecvEvents(before, dropped, answers, finalAnswers);
            RunAfter(before, DropSender, RecvEvents(before, answers, finalAnswers));
          }
        case RenewReady =>
          RenewIsSilent(world);
          RunAfter(world, RenewTick, []);
      }
    }
  }

  lemma RenewIsSilent(s: State)
    ensures Step(s, RenewTick) == s && Run(s, []) == s && [RenewTick] + [] == [RenewTick]
  {
  }

  lemma SameRecvEvents(a: State, b: State, answers: Answers, finalAnswers: Answers)
    requires a.channel == b.channel && a.buf == b.buf
    ensures RecvEvents(a, answers, finalAnswers) == RecvEvents(b, answers, finalAnswers)
  {
  }

  lemma DropKeepsRest(s: State)
    ensures var s' := Step(s, DropSender);
      !s'.senderAlive && s'.pc == s.pc && s'.buf == s.buf && s'.channel == s.channel && s'.nextSequence == s.nextSequence
  {
  }

  predicate InLoop(s: State, attempt: nat) {
    (s.pc.Posting? && s.pc.attempt == attempt) || s.pc == Finalizing(attempt)
  }

  /** Retrying changes neither the batch nor what will happen after it. */
  predicate SameBatch(before: State, s: State, attempt: nat) {
    s.buf == before.buf && s.channel == before.channel && s.nextSequence == before.nextSequence
    && s.senderAlive == before.senderAlive
    && (if before.pc.Posting? then s.pc == Posting(attempt, before.pc.next) else s.pc == Finalizing(attempt))
  }

  /** The retry loop has ended with the given outcome. */
  predicate Left(before: State, s: State, ok: bool) {
    s.nextSequence == before.nextSequence && s.senderAlive == before.senderAlive
    && if before.pc.Posting? then
         s.pc == AfterFlush(before, before.pc.next).pc && s.lastFlushOk == ok
         && s.buf == (if ok then [] else before.buf)
         && s.channel == (if s.pc.Done? then [] else before.channel)
       else s.pc.Done? && s.channel == [] && s.buf == before.buf
  }

  lemma AttemptEffect(before: State, s: State, fate: Fate, attempt: nat)
    requires InLoop(before, 0) && SameBatch(before, s, attempt) && attempt <= MAX_RETRIES
    ensures if Retries(fate) && attempt < MAX_RETRIES then SameBatch(before, Step(s, Attempt(fate)), attempt + 1)
            else Left(before, Step(s, Attempt(fate)), fate.reply.Success?)
  {
    hide Upsert, Items;
  }

  lemma AttemptsSnoc(answers: Answers, k: nat)
    requires k <= MAX_RETRIES
    ensures Attempts(answers[..k + 1]) == Attempts(answers[..k]) + [Attempt(answers[k])]
  {
  }

  lemma RunNothing(s: State)
    ensures Run(s, []) == s
  {
  }

  lemma RunAfter(s: State, e: Event, rest: seq<Event>)
    ensures Run(s, [e] + rest) == Run(Step(s, e), rest)
  {
    hide Step;
    assert ([e] + rest)[1..] == rest;
  }
}
