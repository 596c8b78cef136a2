/** The per-user bookkeeping of the bot: `user_busy`, `user_queue` and
    `user_video_info`, and the handlers that read and change them: recording a
    resolved link, a quality choice, the start of a job, the hand-over to the
    next queued job, and the 60-second selection timer. Each handler is taken
    as one atomic step. */
module Scheduler {
  import opened Wrappers
  import opened Selection

  type UserId = int

  /** A queued request: the choice, the chat it came from, and the copy of the
      user's entry taken when it was queued (its status message is left out). */
  datatype Task = Task(kind: string, selection: string, chat: int, data: Entry)

  /** One user's slice of the three dictionaries. A missing key reads as
      `Idle`, as the handlers' `.get(user_id, ...)` defaults do. */
  datatype UserState = UserState(busy: bool, backlog: seq<Task>, info: Option<Entry>)

  const Idle: UserState := UserState(false, [], None)

  type Registry = map<UserId, UserState>

  function Get(s: Registry, u: UserId): UserState {
    if u in s then s[u] else Idle
  }

  /** A user with queued work is busy. */
  predicate Consistent(s: Registry) {
    forall u :: u in s ==> (s[u].backlog != [] ==> s[u].busy)
  }

  /** `prepare_video_info_and_show_quality` records the entry, replacing the
      previous one even while a job runs; the busy flag and the backlog, and
      every other user, are untouched. */
  function Open(s: Registry, u: UserId, e: Entry): (r: Registry)
    ensures Get(r, u).info == Some(e)
    ensures Get(r, u).busy == Get(s, u).busy && Get(r, u).backlog == Get(s, u).backlog
    ensures forall v :: v != u ==> Get(r, v) == Get(s, v)
    ensures Consistent(s) ==> Consistent(r)
  {
    s[u := Get(s, u).(info := Some(e))]
  }

  datatype SubmitOutcome =
    | StartNow                   // "İşleminiz başlatıldı.", a job thread starts
    | Stranded                   // busy is set, then the answer raises and no job starts
    | Queued(position: nat)      // the position message is sent and the task queued
    | Dropped(position: nat)     // the position message is sent, then the copy of the missing entry fails
    | Unsent                     // sending the position message raises before anything is queued

  datatype Submitted = Submitted(reg: Registry, outcome: SubmitOutcome)

  /** `quality_chosen` after the callback parsed. `hostOk` says whether the
      one host call of the branch that has no guard returns normally: the
      answer and the thread start for an idle user, the position message for
      a busy one. An idle user is marked busy first; the job starts only if
      the answer goes through, otherwise the user stays busy with no job. A
      busy user's choice goes to the back of the backlog with a copy of the
      current entry, and the position shown is the backlog length after
      appending. With no entry to copy, the position is still shown but
      nothing is queued; when the position message fails, nothing is queued
      either. */
  function Submit(s: Registry, u: UserId, kind: string, selection: string, chat: int, hostOk: bool): (r: Submitted)
    ensures r.outcome.StartNow? <==> !Get(s, u).busy && hostOk
    ensures r.outcome.Stranded? <==> !Get(s, u).busy && !hostOk
    ensures !Get(s, u).busy ==> Get(r.reg, u) == Get(s, u).(busy := true)
    ensures r.outcome.Queued? <==> Get(s, u).busy && hostOk && Get(s, u).info.Some?
    ensures r.outcome.Queued? ==>
      && Get(r.reg, u) == Get(s, u).(backlog := Get(s, u).backlog + [Task(kind, selection, chat, Get(s, u).info.value)])
      && r.outcome.position == |Get(r.reg, u).backlog|
    ensures r.outcome.Dropped? <==> Get(s, u).busy && hostOk && Get(s, u).info.None?
    ensures r.outcome.Dropped? ==> r.reg == s && r.outcome.position == |Get(s, u).backlog| + 1
    ensures r.outcome.Unsent? <==> Get(s, u).busy && !hostOk
    ensures r.outcome.Unsent? ==> r.reg == s
    ensures Get(r.reg, u).busy && Get(r.reg, u).info == Get(s, u).info
    ensures forall v :: v != u ==> Get(r.reg, v) == Get(s, v)
    ensures Consistent(s) ==> Consistent(r.reg)
  {
    var us := Get(s, u);
    if !us.busy then
      Submitted(s[u := us.(busy := true)], if hostOk then StartNow else Stranded)
    else if !hostOk then
      Submitted(s, Unsent)
    else if us.info.None? then
      Submitted(s, Dropped(|us.backlog| + 1))
    else
      var t := Task(kind, selection, chat, us.info.value);
      Submitted(s[u := us.(backlog := us.backlog + [t])], Queued(|us.backlog| + 1))
  }

  /** The handler with the idle branch's answer guarded like the handler's
      other Telegram calls (or the thread started before it): an idle user's
      choice always starts its job, and a busy user's choice is handled as
      before. */
  function SubmitGuarded(s: Registry, u: UserId, kind: string, selection: string, chat: int, hostOk: bool): (r: Submitted)
    ensures !r.outcome.Stranded?
    ensures r.outcome.StartNow? <==> !Get(s, u).busy
    ensures r.reg == Submit(s, u, kind, selection, chat, hostOk).reg
    ensures Get(s, u).busy ==> r == Submit(s, u, kind, selection, chat, hostOk)
  {
    var us := Get(s, u);
    if !us.busy then Submitted(s[u := us.(busy := true)], StartNow)
    else Submit(s, u, kind, selection, chat, hostOk)
  }

  datatype Begun = Begun(reg: Registry, entry: Option<Entry>)

  /** The start of `_process_task`: the job reads the user's current entry and
      marks it selected; with no entry the job fails at once. */
  function Begin(s: Registry, u: UserId): (r: Begun)
    ensures r.entry.Some? <==> Get(s, u).info.Some?
    ensures r.entry.Some? ==> r.entry.value == Get(s, u).info.value.(selectionMade := true)
    ensures Get(r.reg, u) == Get(s, u).(info := r.entry)
    ensures forall v :: v != u ==> Get(r.reg, v) == Get(s, v)
    ensures Consistent(s) ==> Consistent(r.reg)
  {
    var us := Get(s, u);
    match us.info
    case None => Begun(s, None)
    case Some(e) =>
      var e' := e.(selectionMade := true);
      Begun(s[u := us.(info := Some(e'))], Some(e'))
  }

  datatype Completed = Completed(reg: Registry, next: Option<Task>)

  /** `check_next`: the head of the backlog becomes the user's entry and runs
      next, the user staying busy; with an empty backlog the user becomes idle
      and the entry is discarded. */
  function Complete(s: Registry, u: UserId): (r: Completed)
    ensures Get(s, u).backlog != [] ==>
      && r.next == Some(Get(s, u).backlog[0])
      && Get(r.reg, u) == UserState(Get(s, u).busy, Get(s, u).backlog[1..], Some(Get(s, u).backlog[0].data))
    ensures Get(s, u).backlog == [] ==> r.next.None? && Get(r.reg, u) == Idle
    ensures forall v :: v != u ==> Get(r.reg, v) == Get(s, v)
    ensures Consistent(s) ==> Consistent(r.reg)
  {
    var us := Get(s, u);
    if us.backlog == [] then
      Completed(s[u := Idle], None)
    else
      var t := us.backlog[0];
      Completed(s[u := UserState(us.busy, us.backlog[1..], Some(t.data))], Some(t))
  }

  datatype TimedOut = TimedOut(reg: Registry, cancelled: bool)

  /** `start_quality_timeout` after its 60 seconds: whatever entry the user
      has at that moment is discarded, with a notice, unless it is marked
      selected. The timer is not tied to the entry it was started for. */
  function Timeout(s: Registry, u: UserId): (r: TimedOut)
    ensures r.cancelled <==> Get(s, u).info.Some? && !Get(s, u).info.value.selectionMade
    ensures r.cancelled ==> Get(r.reg, u) == Get(s, u).(info := None)
    ensures !r.cancelled ==> r.reg == s
    ensures forall v :: v != u ==> Get(r.reg, v) == Get(s, v)
    ensures Consistent(s) ==> Consistent(r.reg)
  {
    var us := Get(s, u);
    if us.info.Some? && !us.info.value.selectionMade then
      TimedOut(s[u := us.(info := None)], true)
    else
      TimedOut(s, false)
  }

  /** How the job body ended: `True`, `False`, or an exception escaping it. */
  datatype JobEnd = Succeeded | Failed | Raised

  /** What `process_task` does once its job has ended: the tasks its
      hand-over starts in the same thread, whether each job's status message
      is deleted (this job's first), whether an exception leaves the thread,
      and the registry afterwards. */
  datatype ChainResult = ChainResult(reg: Registry, started: seq<Task>, deleted: seq<bool>, raised: bool)

  /** `process_task` for the job that ended with `ends(i)`. Its `finally`
      runs `check_next`, which runs the next queued job to its end, `ends(i +
      1)`, before returning, and so on down the backlog. The status message is
      deleted only when the job returned `True` and the hand-over returned
      normally; a job that raises still hands over, then its exception, or a
      later job's, propagates out of every enclosing call. */
  function Chain(s: Registry, u: UserId, ends: nat -> JobEnd, i: nat): (r: ChainResult)
    ensures |r.deleted| == |r.started| + 1
    decreases |Get(s, u).backlog|
  {
    var c := Complete(s, u);
    if c.next.None? then ChainResult(c.reg, [], [ends(i) == Succeeded], ends(i) == Raised)
    else
      var rest := Chain(Begin(c.reg, u).reg, u, ends, i + 1);
      ChainResult(rest.reg, [c.next.value] + rest.started,
        [ends(i) == Succeeded && !rest.raised] + rest.deleted,
        ends(i) == Raised || rest.raised)
  }

  /** The chain runs the whole backlog in order, one job after another, and
      leaves the user idle; no other user is touched. */
  lemma {:induction false} ChainDrains(s: Registry, u: UserId, ends: nat -> JobEnd, i: nat)
    ensures Chain(s, u, ends, i).started == Get(s, u).backlog
    ensures Get(Chain(s, u, ends, i).reg, u) == Idle
    ensures forall v :: v != u ==> Get(Chain(s, u, ends, i).reg, v) == Get(s, v)
    decreases |Get(s, u).backlog|
  {
    var c := Complete(s, u);
    if c.next.Some? {
      var b := Begin(c.reg, u).reg;
      ChainDrains(b, u, ends, i + 1);
      var bl := Get(s, u).backlog;
      assert bl == [bl[0]] + bl[1..];
    }
  }

  /** Some job numbered `lo` to `hi` raised. */
  ghost predicate RaisedIn(ends: nat -> JobEnd, lo: nat, hi: nat) {
    exists m :: lo <= m <= hi && ends(m) == Raised
  }

  /** An exception leaves the thread if and only if some job of the chain raised. */
  lemma {:induction false} ChainRaised(s: Registry, u: UserId, ends: nat -> JobEnd, i: nat)
    ensures Chain(s, u, ends, i).raised <==> RaisedIn(ends, i, i + |Get(s, u).backlog|)
    decreases |Get(s, u).backlog|
  {
    var c := Complete(s, u);
    if c.next.Some? {
      var b := Begin(c.reg, u).reg;
      ChainRaised(b, u, ends, i + 1);
      assert |Get(b, u).backlog| == |Get(s, u).backlog| - 1;
    }
  }

  /** One step of the chain: the head of the backlog is started on its
      snapshot, and the rest of the chain runs from there. */
  lemma ChainStep(s: Registry, u: UserId, ends: nat -> JobEnd, i: nat)
    requires Get(s, u).backlog != []
    ensures var b := Begin(Complete(s, u).reg, u).reg;
      var rest := Chain(b, u, ends, i + 1);
      && |Get(b, u).backlog| == |Get(s, u).backlog| - 1
      && Chain(s, u, ends, i).raised == (ends(i) == Raised || rest.raised)
      && Chain(s, u, ends, i).deleted == [ends(i) == Succeeded && !rest.raised] + rest.deleted
  {
  }

  /** The last job of the chain: its hand-over idles the user. */
  lemma ChainLast(s: Registry, u: UserId, ends: nat -> JobEnd, i: nat)
    requires Get(s, u).backlog == []
    ensures Chain(s, u, ends, i).deleted == [ends(i) == Succeeded]
    ensures Chain(s, u, ends, i).raised == (ends(i) == Raised)
  {
  }

  /** The k-th job's status message is deleted if and only if that job
      succeeded and no job after it in the chain raised. */
  lemma ChainDeleted(s: Registry, u: UserId, ends: nat -> JobEnd, i: nat)
    ensures |Chain(s, u, ends, i).deleted| == |Get(s, u).backlog| + 1
    ensures DeletedSpec(Chain(s, u, ends, i).deleted, ends, i, i + |Get(s, u).backlog|)
  {
    ChainDeletedUpTo(s, u, ends, i, i + |Get(s, u).backlog|);
  }

  /** `ChainDeleted` with the number of the chain's last job fixed, so that
      every level of the induction speaks of the same bound. */
  lemma {:induction false} ChainDeletedUpTo(s: Registry, u: UserId, ends: nat -> JobEnd, i: nat, last: nat)
    requires last == i + |Get(s, u).backlog|
    ensures |Chain(s, u, ends, i).deleted| == last - i + 1
    ensures DeletedSpec(Chain(s, u, ends, i).deleted, ends, i, last)
    decreases last - i
  {
    var d := Chain(s, u, ends, i).deleted;
    if last == i {
      ChainLast(s, u, ends, i);
      assert KeptClear(ends, i, i) <==> ends(i) == Succeeded;
    } else {
      var b := Begin(Complete(s, u).reg, u).reg;
      var rest := Chain(b, u, ends, i + 1);
      assert last == (i + 1) + |Get(b, u).backlog| && d == [ends(i) == Succeeded && !rest.raised] + rest.deleted by {
        ChainStep(s, u, ends, i);
      }
      ChainDeletedUpTo(b, u, ends, i + 1, last);
      assert rest.raised <==> RaisedIn(ends, i + 1, last) by {
        ChainRaised(b, u, ends, i + 1);
      }
      DeletedStep(ends, i, last, rest.deleted, rest.raised, d);
    }
  }

  /** The i-th flag of `d` is set exactly when job `first + i` succeeded and
      no later job up to `last` raised. */
  ghost predicate DeletedSpec(d: seq<bool>, ends: nat -> JobEnd, first: nat, last: nat) {
    forall k :: 0 <= k < |d| ==> (d[k] <==> KeptClear(ends, first + k, last))
  }

  /** Job `k` succeeded and no job numbered up to `last` after it raised. */
  ghost predicate KeptClear(ends: nat -> JobEnd, k: nat, last: nat) {
    ends(k) == Succeeded && forall m :: k < m <= last ==> ends(m) != Raised
  }

  /** One more job in front of the chain: its deletion needs its own success
      and no exception from the rest, and the rest's deletions are as before.
      The rest covers jobs `i + 1` to `i + 1 + m`. */
  lemma DeletedStep(ends: nat -> JobEnd, i: nat, last: nat, restDeleted: seq<bool>, restRaised: bool, d: seq<bool>)
    requires i < last && |restDeleted| == last - i
    requires restRaised <==> RaisedIn(ends, i + 1, last)
    requires DeletedSpec(restDeleted, ends, i + 1, last)
    requires d == [ends(i) == Succeeded && !restRaised] + restDeleted
    ensures |d| == last - i + 1
    ensures DeletedSpec(d, ends, i, last)
  {
    forall k | 0 <= k < |d| ensures d[k] <==> KeptClear(ends, i + k, last) {
      if k > 0 {
        assert d[k] == restDeleted[k - 1];
        assert (i + 1) + (k - 1) == i + k;
      }
    }
  }

  /** The queue advances the same way whether each job succeeded, failed or
      raised. */
  lemma {:induction false} ChainIgnoresOutcome(s: Registry, u: UserId, a: nat -> JobEnd, b: nat -> JobEnd, i: nat)
    ensures Chain(s, u, a, i).reg == Chain(s, u, b, i).reg
    ensures Chain(s, u, a, i).started == Chain(s, u, b, i).started
    decreases |Get(s, u).backlog|
  {
    var c := Complete(s, u);
    if c.next.Some? {
      ChainIgnoresOutcome(Begin(c.reg, u).reg, u, a, b, i + 1);
    }
  }

  /** A job that succeeded keeps its status message when the job handed over
      after it raises. */
  lemma SucceededButKept(s: Registry, u: UserId, ends: nat -> JobEnd)
    requires |Get(s, u).backlog| == 1
    requires ends(0) == Succeeded && ends(1) == Raised
    ensures !Chain(s, u, ends, 0).deleted[0]
    ensures Chain(s, u, ends, 0).raised
  {
    ChainDeleted(s, u, ends, 0);
    assert !KeptClear(ends, 0, 1);
    assert RaisedIn(ends, 0, 1);
    ChainRaised(s, u, ends, 0);
  }

  /** The task a hand-over starts runs on its own snapshot, marked selected. */
  lemma HandOverRunsSnapshot(s: Registry, u: UserId)
    requires Get(s, u).backlog != []
    ensures Begin(Complete(s, u).reg, u).entry == Some(Get(s, u).backlog[0].data.(selectionMade := true))
  {
  }

  /** Once a job has begun on the entry, the selection timer leaves it alone. */
  lemma TimeoutAfterBegin(s: Registry, u: UserId)
    ensures var b := Begin(s, u);
      !Timeout(b.reg, u).cancelled && Timeout(b.reg, u).reg == b.reg
  {
  }

  /** From a busy state, the next `|backlog|` hand-overs start the backlog's
      tasks in order, the user staying busy, and the one after that leaves the
      user idle. */
  lemma {:induction false} DrainInOrder(s: Registry, u: UserId)
    requires Get(s, u).busy
    ensures Started(s, u, |Get(s, u).backlog|) == Get(s, u).backlog
    ensures Get(Drain(s, u, |Get(s, u).backlog|), u).busy
    ensures Complete(Drain(s, u, |Get(s, u).backlog|), u) == Completed(Drain(s, u, |Get(s, u).backlog|)[u := Idle], None)
    decreases |Get(s, u).backlog|
  {
    var us := Get(s, u);
    if us.backlog != [] {
      var c := Complete(s, u);
      assert Get(c.reg, u).backlog == us.backlog[1..];
      DrainInOrder(c.reg, u);
      assert us.backlog == [us.backlog[0]] + us.backlog[1..];
    }
  }

  /** The registry after `n` consecutive hand-overs. */
  function Drain(s: Registry, u: UserId, n: nat): Registry
    decreases n
  {
    if n == 0 then s else Drain(Complete(s, u).reg, u, n - 1)
  }

  /** The tasks the first `n` consecutive hand-overs start. */
  function Started(s: Registry, u: UserId, n: nat): seq<Task>
    decreases n
  {
    if n == 0 then []
    else
      var c := Complete(s, u);
      (if c.next.Some? then [c.next.value] else []) + Started(c.reg, u, n - 1)
  }

  /** A choice made while busy runs after everything already queued, with
      the entry as it was when the choice was made. */
  lemma QueuedChoiceRunsLast(s: Registry, u: UserId, kind: string, selection: string, chat: int)
    requires Get(s, u).busy && Get(s, u).info.Some?
    ensures var q := Submit(s, u, kind, selection, chat, true);
      Started(q.reg, u, q.outcome.position) ==
        Get(s, u).backlog + [Task(kind, selection, chat, Get(s, u).info.value)]
  {
    var q := Submit(s, u, kind, selection, chat, true);
    DrainInOrder(q.reg, u);
  }

  /** A choice queued while busy is snapshotted: opening another link, the
      running job's `Begin` and the timer change the user's entry but never
      the queued copies. */
  lemma SnapshotIsolated(s: Registry, u: UserId, e: Entry)
    ensures Get(Open(s, u, e), u).backlog == Get(s, u).backlog
    ensures Get(Begin(s, u).reg, u).backlog == Get(s, u).backlog
    ensures Get(Timeout(s, u).reg, u).backlog == Get(s, u).backlog
  {
  }

  /** The timer started for one link discards a later, still unselected
      entry of the same user. */
  lemma TimerNotScopedToEntry(s: Registry, u: UserId, first: Entry, second: Entry)
    requires !second.selectionMade
    ensures var r := Open(Open(s, u, first), u, second);
      Timeout(r, u).cancelled && Get(Timeout(r, u).reg, u).info.None?
  {
  }

  /** A choice queued while busy does not mark the live entry as selected, so
      the timer still cancels it, although the queued copy will run. */
  lemma QueuedChoiceStillExpires(s: Registry, u: UserId, e: Entry, kind: string, selection: string, chat: int)
    requires Get(s, u).busy && !e.selectionMade
    ensures var q := Submit(Open(s, u, e), u, kind, selection, chat, true);
      && q.outcome.Queued?
      && Timeout(q.reg, u).cancelled
      && Get(Timeout(q.reg, u).reg, u).backlog[|Get(s, u).backlog|].data == e
  {
  }

  /** A choice made while busy after the entry was discarded is lost. */
  lemma ChoiceWithoutEntryDropped(s: Registry, u: UserId, kind: string, selection: string, chat: int)
    requires Get(s, u).busy && Get(s, u).info.None?
    ensures Submit(s, u, kind, selection, chat, true).outcome == Dropped(|Get(s, u).backlog| + 1)
    ensures Submit(s, u, kind, selection, chat, true).reg == s
  {
  }

  /** The last job's hand-over discards an entry opened while it ran, before
      any choice was made on it. */
  lemma IdleDiscardsFreshEntry(s: Registry, u: UserId, e: Entry)
    requires Get(s, u).backlog == []
    ensures Get(Complete(Open(s, u, e), u).reg, u).info.None?
  {
  }
}
