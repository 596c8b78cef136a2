/** Runs of the bot's handlers over any interleaving of users and events. Next
    to the registry the model keeps an account the handlers never read: how
    many jobs each user has running, and, per user, every task ever queued and
    every task ever started from the queue. The invariant ties the registry to
    that account: at most one job per user, only while the user is busy, and
    the queue is first in, first out, losing nothing. `guarded` selects the
    choice handler with its answer guarded (`SubmitGuarded`) instead of the
    handler as written (`Submit`); only then is a busy user always running a
    job. */
module Traces {
  import opened Wrappers
  import opened Selection
  import opened Scheduler

  datatype Event =
    | OpenLink(u: UserId, e: Entry)
    | Choose(u: UserId, kind: string, selection: string, chat: int, hostOk: bool)
    | BeginJob(u: UserId)
    | EndJob(u: UserId)
    | Expire(u: UserId)

  datatype System = System(
    reg: Registry,
    running: map<UserId, nat>,
    queued: map<UserId, seq<Task>>,
    taken: map<UserId, seq<Task>>)

  const Start: System := System(map[], map[], map[], map[])

  function Running(sys: System, u: UserId): nat {
    if u in sys.running then sys.running[u] else 0
  }

  function QueuedLog(sys: System, u: UserId): seq<Task> {
    if u in sys.queued then sys.queued[u] else []
  }

  function TakenLog(sys: System, u: UserId): seq<Task> {
    if u in sys.taken then sys.taken[u] else []
  }

  /** A job begins and ends only while it runs. */
  predicate Allowed(sys: System, ev: Event) {
    (ev.BeginJob? || ev.EndJob?) ==> Running(sys, ev.u) > 0
  }

  /** One handler call, with the account updated from what the call reports:
      a choice that starts now starts a job, a queued choice logs its task, and
      a job's end stops it and starts the task `check_next` hands over. How the
      job ended does not matter to the hand-over (`ChainIgnoresOutcome`). */
  function Step(sys: System, ev: Event, guarded: bool): System {
    match ev
    case OpenLink(u, e) => sys.(reg := Open(sys.reg, u, e))
    case Choose(u, kind, selection, chat, hostOk) =>
      var r := if guarded then SubmitGuarded(sys.reg, u, kind, selection, chat, hostOk)
               else Submit(sys.reg, u, kind, selection, chat, hostOk);
      (match r.outcome
       case StartNow => sys.(reg := r.reg, running := sys.running[u := Running(sys, u) + 1])
       case Stranded => sys.(reg := r.reg)
       case Queued(_) =>
         var t := Task(kind, selection, chat, Get(sys.reg, u).info.value);
         sys.(reg := r.reg, queued := sys.queued[u := QueuedLog(sys, u) + [t]])
       case Dropped(_) => sys
       case Unsent => sys)
    case BeginJob(u) => sys.(reg := Begin(sys.reg, u).reg)
    case EndJob(u) =>
      var c := Complete(sys.reg, u);
      var stopped: nat := if Running(sys, u) > 0 then Running(sys, u) - 1 else 0;
      (match c.next
       case None => sys.(reg := c.reg, running := sys.running[u := stopped])
       case Some(t) =>
         sys.(reg := c.reg, running := sys.running[u := stopped + 1],
              taken := sys.taken[u := TakenLog(sys, u) + [t]]))
    case Expire(u) => sys.(reg := Timeout(sys.reg, u).reg)
  }

  function Run(sys: System, evs: seq<Event>, guarded: bool): System
    decreases |evs|
  {
    if |evs| == 0 then sys else Run(Step(sys, evs[0], guarded), evs[1..], guarded)
  }

  predicate AllowedRun(sys: System, evs: seq<Event>, guarded: bool)
    decreases |evs|
  {
    |evs| == 0 || (Allowed(sys, evs[0]) && AllowedRun(Step(sys, evs[0], guarded), evs[1..], guarded))
  }

  /** For one user: at most one job runs, and only while the user is busy;
      with the guarded handler, a busy user always has its job running. The
      queued log is the started log followed by the backlog. */
  ghost predicate UserInv(sys: System, u: UserId, guarded: bool) {
    && Running(sys, u) <= 1
    && (Running(sys, u) == 1 ==> Get(sys.reg, u).busy)
    && (guarded ==> (Running(sys, u) == 1 <==> Get(sys.reg, u).busy))
    && QueuedLog(sys, u) == TakenLog(sys, u) + Get(sys.reg, u).backlog
  }

  ghost predicate Inv(sys: System, guarded: bool) {
    Consistent(sys.reg) && forall u :: UserInv(sys, u, guarded)
  }

  lemma StartInv(guarded: bool)
    ensures Inv(Start, guarded)
  {
    forall u ensures UserInv(Start, u, guarded) {
      assert Get(Start.reg, u) == Idle;
    }
  }

  /** A registry change that keeps every user's busy flag and backlog keeps
      the invariant. */
  lemma FrameInv(sys: System, reg: Registry, guarded: bool)
    requires Inv(sys, guarded) && Consistent(reg)
    requires forall v :: Get(reg, v).busy == Get(sys.reg, v).busy && Get(reg, v).backlog == Get(sys.reg, v).backlog
    ensures Inv(sys.(reg := reg), guarded)
  {
    forall v ensures UserInv(sys.(reg := reg), v, guarded) {
      assert UserInv(sys, v, guarded);
    }
  }

  /** A choice leaves every other user's account and state as they were. */
  lemma ChooseOther(sys: System, u: UserId, kind: string, selection: string, chat: int, hostOk: bool, guarded: bool, v: UserId)
    requires v != u && UserInv(sys, v, guarded)
    ensures UserInv(Step(sys, Choose(u, kind, selection, chat, hostOk), guarded), v, guarded)
  {
    var sys' := Step(sys, Choose(u, kind, selection, chat, hostOk), guarded);
    assert sys'.reg == Submit(sys.reg, u, kind, selection, chat, hostOk).reg;
    assert Get(sys'.reg, v) == Get(sys.reg, v);
    assert Running(sys', v) == Running(sys, v);
    assert QueuedLog(sys', v) == QueuedLog(sys, v) && TakenLog(sys', v) == TakenLog(sys, v);
  }

  /** A choice starts a job only for an idle user, leaves an idle user busy
      with no job only when the unguarded answer fails, and otherwise appends
      to both the backlog and the queued log, or changes nothing. */
  lemma ChooseSelf(sys: System, u: UserId, kind: string, selection: string, chat: int, hostOk: bool, guarded: bool)
    requires UserInv(sys, u, guarded)
    ensures UserInv(Step(sys, Choose(u, kind, selection, chat, hostOk), guarded), u, guarded)
  {
    var sys' := Step(sys, Choose(u, kind, selection, chat, hostOk), guarded);
    var r := if guarded then SubmitGuarded(sys.reg, u, kind, selection, chat, hostOk)
             else Submit(sys.reg, u, kind, selection, chat, hostOk);
    var q := Submit(sys.reg, u, kind, selection, chat, hostOk);
    assert sys'.reg == r.reg && r.reg == q.reg;
    if r.outcome.StartNow? {
      assert Running(sys', u) == 1;
      assert QueuedLog(sys', u) == QueuedLog(sys, u) && TakenLog(sys', u) == TakenLog(sys, u);
    } else if r.outcome.Queued? {
      var t := Task(kind, selection, chat, Get(sys.reg, u).info.value);
      assert r == q;
      assert Running(sys', u) == Running(sys, u);
      assert QueuedLog(sys', u) == QueuedLog(sys, u) + [t] && TakenLog(sys', u) == TakenLog(sys, u);
      assert Get(sys'.reg, u).backlog == Get(sys.reg, u).backlog + [t];
    } else {
      assert Running(sys', u) == Running(sys, u);
      assert QueuedLog(sys', u) == QueuedLog(sys, u) && TakenLog(sys', u) == TakenLog(sys, u);
      assert Get(sys'.reg, u).backlog == Get(sys.reg, u).backlog;
    }
  }

  lemma ChooseInv(sys: System, u: UserId, kind: string, selection: string, chat: int, hostOk: bool, guarded: bool)
    requires Inv(sys, guarded)
    ensures Inv(Step(sys, Choose(u, kind, selection, chat, hostOk), guarded), guarded)
  {
    var sys' := Step(sys, Choose(u, kind, selection, chat, hostOk), guarded);
    assert sys'.reg == Submit(sys.reg, u, kind, selection, chat, hostOk).reg;
    forall v ensures UserInv(sys', v, guarded) {
      assert UserInv(sys, v, guarded);
      if v == u {
        ChooseSelf(sys, u, kind, selection, chat, hostOk, guarded);
      } else {
        ChooseOther(sys, u, kind, selection, chat, hostOk, guarded, v);
      }
    }
  }

  /** A job's end leaves every other user's account and state as they were. */
  lemma EndJobOther(sys: System, u: UserId, guarded: bool, v: UserId)
    requires v != u && UserInv(sys, v, guarded)
    ensures UserInv(Step(sys, EndJob(u), guarded), v, guarded)
  {
    var sys' := Step(sys, EndJob(u), guarded);
    assert sys'.reg == Complete(sys.reg, u).reg;
    assert Running(sys', v) == Running(sys, v);
    assert QueuedLog(sys', v) == QueuedLog(sys, v) && TakenLog(sys', v) == TakenLog(sys, v);
  }

  /** A job's end either idles its user or starts the head of the backlog,
      which moves from the backlog to the started log. */
  lemma EndJobSelf(sys: System, u: UserId, guarded: bool)
    requires UserInv(sys, u, guarded) && Running(sys, u) > 0
    ensures UserInv(Step(sys, EndJob(u), guarded), u, guarded)
  {
    var sys' := Step(sys, EndJob(u), guarded);
    var c := Complete(sys.reg, u);
    assert sys'.reg == c.reg;
    var us := Get(sys.reg, u);
    if us.backlog == [] {
      assert Running(sys', u) == 0 && Get(sys'.reg, u) == Idle;
      assert QueuedLog(sys', u) == QueuedLog(sys, u) && TakenLog(sys', u) == TakenLog(sys, u);
    } else {
      assert Running(sys', u) == 1 && Get(sys'.reg, u).busy;
      assert us.backlog == [us.backlog[0]] + us.backlog[1..];
      assert QueuedLog(sys', u) == QueuedLog(sys, u);
      assert TakenLog(sys', u) == TakenLog(sys, u) + [us.backlog[0]];
      assert Get(sys'.reg, u).backlog == us.backlog[1..];
    }
  }

  lemma EndJobInv(sys: System, u: UserId, guarded: bool)
    requires Inv(sys, guarded) && Running(sys, u) > 0
    ensures Inv(Step(sys, EndJob(u), guarded), guarded)
  {
    var sys' := Step(sys, EndJob(u), guarded);
    assert sys'.reg == Complete(sys.reg, u).reg;
    forall v ensures UserInv(sys', v, guarded) {
      assert UserInv(sys, v, guarded);
      if v == u {
        EndJobSelf(sys, u, guarded);
      } else {
        EndJobOther(sys, u, guarded, v);
      }
    }
  }

  /** Every allowed handler call keeps the invariant. */
  lemma StepInv(sys: System, ev: Event, guarded: bool)
    requires Inv(sys, guarded) && Allowed(sys, ev)
    ensures Inv(Step(sys, ev, guarded), guarded)
  {
    match ev
    case OpenLink(u, e) => FrameInv(sys, Open(sys.reg, u, e), guarded);
    case Choose(u, kind, selection, chat, hostOk) => ChooseInv(sys, u, kind, selection, chat, hostOk, guarded);
    case BeginJob(u) => FrameInv(sys, Begin(sys.reg, u).reg, guarded);
    case EndJob(u) => EndJobInv(sys, u, guarded);
    case Expire(u) => FrameInv(sys, Timeout(sys.reg, u).reg, guarded);
  }

  /** The invariant holds after any allowed run. */
  lemma {:induction false} RunInv(sys: System, evs: seq<Event>, guarded: bool)
    requires Inv(sys, guarded) && AllowedRun(sys, evs, guarded)
    ensures Inv(Run(sys, evs, guarded), guarded)
    decreases |evs|
  {
    if |evs| > 0 {
      StepInv(sys, evs[0], guarded);
      RunInv(Step(sys, evs[0], guarded), evs[1..], guarded);
    }
  }

  /** From the bot's start, no user ever has two jobs running, and one runs
      only while its user is busy; with the guarded handler a busy user always
      has one running. Queued tasks start in the order they were queued, each
      exactly once, the rest still waiting. */
  lemma SingleFlightAndFifo(evs: seq<Event>, u: UserId, guarded: bool)
    requires AllowedRun(Start, evs, guarded)
    ensures Running(Run(Start, evs, guarded), u) <= 1
    ensures Running(Run(Start, evs, guarded), u) == 1 ==> Get(Run(Start, evs, guarded).reg, u).busy
    ensures guarded ==> (Running(Run(Start, evs, guarded), u) == 1 <==> Get(Run(Start, evs, guarded).reg, u).busy)
    ensures var sys := Run(Start, evs, guarded);
      && |TakenLog(sys, u)| <= |QueuedLog(sys, u)|
      && TakenLog(sys, u) == QueuedLog(sys, u)[..|TakenLog(sys, u)|]
      && Get(sys.reg, u).backlog == QueuedLog(sys, u)[|TakenLog(sys, u)|..]
  {
    StartInv(guarded);
    RunInv(Start, evs, guarded);
    var sys := Run(Start, evs, guarded);
    assert UserInv(sys, u, guarded);
  }

  /** With the guarded handler, no reachable state has a busy user without a
      running job. */
  lemma GuardedNeverStranded(evs: seq<Event>, u: UserId)
    requires AllowedRun(Start, evs, true)
    ensures Get(Run(Start, evs, true).reg, u).busy ==> Running(Run(Start, evs, true), u) == 1
  {
    SingleFlightAndFifo(evs, u, true);
  }

  /** One step from a stranded user (busy, nothing running) keeps the user
      stranded and starts nothing from the backlog. */
  lemma StrandedStep(sys: System, ev: Event, u: UserId)
    requires Get(sys.reg, u).busy && Running(sys, u) == 0 && Allowed(sys, ev)
    ensures Get(Step(sys, ev, false).reg, u).busy
    ensures Running(Step(sys, ev, false), u) == 0
    ensures TakenLog(Step(sys, ev, false), u) == TakenLog(sys, u)
  {
    match ev
    case OpenLink(v, e) =>
    case Choose(v, kind, selection, chat, hostOk) =>
      var r := Submit(sys.reg, v, kind, selection, chat, hostOk);
      if v == u {
        assert !r.outcome.StartNow?;
      }
    case BeginJob(v) =>
    case EndJob(v) =>
      assert v != u;
    case Expire(v) =>
  }

  /** As written, a failed answer to an idle user's choice strands the user:
      whatever happens afterwards, the user stays busy, no job of theirs runs
      again, and nothing queued is ever started. */
  lemma {:induction false} StrandedForever(sys: System, evs: seq<Event>, u: UserId)
    requires Get(sys.reg, u).busy && Running(sys, u) == 0 && AllowedRun(sys, evs, false)
    ensures Get(Run(sys, evs, false).reg, u).busy
    ensures Running(Run(sys, evs, false), u) == 0
    ensures TakenLog(Run(sys, evs, false), u) == TakenLog(sys, u)
    decreases |evs|
  {
    if |evs| > 0 {
      StrandedStep(sys, evs[0], u);
      StrandedForever(Step(sys, evs[0], false), evs[1..], u);
    }
  }

  /** The input that strands a user: an idle user's choice whose answer
      raises. */
  lemma FailedAnswerStrands(sys: System, u: UserId, kind: string, selection: string, chat: int)
    requires Inv(sys, false) && !Get(sys.reg, u).busy
    ensures var sys' := Step(sys, Choose(u, kind, selection, chat, false), false);
      Get(sys'.reg, u).busy && Running(sys', u) == 0
  {
    assert UserInv(sys, u, false);
  }
}
