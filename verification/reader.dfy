/** The reader role: poll for each step with bounded retries, stop at the
    first step whose poll does not end in OK, otherwise resolve the variable,
    fetch one block, end the step, and (when checking is on) report the first
    offset of the block that does not hold the pattern. */
module Reader {
  import opened Engine
  import opened Polling
  import opened Verification

  /** Block size, number of steps wanted, and whether to check contents. */
  datatype Config = Config(size: nat, count: nat, check: bool)

  /** What the reader learned in one completed step: the BeginStep calls it
      took, whether the variable resolved, and the mismatch it reported. */
  datatype StepLog = StepLog(tries: nat, found: bool, mismatch: Option<nat>)

  /** `fetch(s, i)` is the entry a Get of step `s` leaves at offset `i` of
      the reader's buffer once EndStep returns. */
  type Fetch = (nat, nat) -> int

  /** The reader's buffer after step `s`: the selection covers offsets 0 to
      `size`, so exactly `size` entries are fetched. */
  function Delivered(fetch: Fetch, s: nat, size: nat): seq<int> {
    seq(size, i requires 0 <= i < size => fetch(s, i))
  }

  /** The verification outcome of step `s`: a mismatch is reported only when
      checking is on and the variable resolved, and it is then the first bad
      offset; no report means the check did not run or the block matched. */
  predicate Reported(cfg: Config, inquire: nat -> bool, fetch: Fetch, s: nat, m: Option<nat>) {
    match m
    case Some(k) => cfg.check && inquire(s) && IsFirstMismatch(Delivered(fetch, s, cfg.size), k)
    case None => !(cfg.check && inquire(s)) || Matches(Delivered(fetch, s, cfg.size))
  }

  /** The poll of step `s` ends in OK, so the step is carried out. */
  predicate Ready(begin: Oracle, s: nat) {
    FinalPoll(begin, s).status == OK
  }

  /** Step `s` completed as the benchmark's reader carries it out: its poll ended in OK after
      the logged number of tries, the logged inquiry result is the engine's,
      and the logged mismatch is the verification outcome. */
  predicate StepDone(cfg: Config, begin: Oracle, inquire: nat -> bool, fetch: Fetch, s: nat, l: StepLog) {
    && Ready(begin, s)
    && l.tries == FinalPoll(begin, s).tries
    && l.found == inquire(s)
    && Reported(cfg, inquire, fetch, s, l.mismatch)
  }

  /** Number of the first `n` steps whose variable resolves. */
  function ResolvedSteps(inquire: nat -> bool, n: nat): nat
    decreases n
  {
    if n == 0 then 0 else ResolvedSteps(inquire, n - 1) + (if inquire(n - 1) then 1 else 0)
  }

  /** The engine calls of a step after its successful poll: the inquiry,
      the Get when the variable resolved, and EndStep in every case. */
  function StepBody(found: bool, size: nat): seq<Event> {
    [Inquire(found)] + (if found then [Get(size)] else []) + [EndStep]
  }

  /** A step body, inside a freshly begun read step, is allowed by the
      protocol: it ends the step and moves one block exactly when the
      variable resolved. */
  lemma StepBodyFacts(found: bool, size: nat, ses: Session)
    requires ses.phase == Reading(None)
    ensures Run(size, ses, StepBody(found, size))
            == Some(Session(Idle, ses.begun, ses.ended + 1, ses.moved + (if found then 1 else 0)))
  {
    var t := StepBody(found, size);
    var done := Session(Idle, ses.begun, ses.ended + 1, ses.moved + (if found then 1 else 0));
    var asked := ses.(phase := Reading(Some(found)));
    if found {
      var fetched := asked.(phase := Fetched, moved := ses.moved + 1);
      assert t[1..] == [Get(size), EndStep];
      assert t[1..][1..] == [EndStep];
      assert t[1..][1..][1..] == [];
      assert Run(size, fetched, t[1..][1..]) == Some(done);
      assert Run(size, asked, t[1..]) == Some(done);
    } else {
      assert t[1..] == [EndStep];
      assert t[1..][1..] == [];
      assert Run(size, asked, t[1..]) == Some(done);
    }
  }

  /** The events of the poll of step `s`. */
  function PollEvents(begin: Oracle, s: nat): seq<Event> {
    Attempts(begin, s, FinalPoll(begin, s).tries)
  }

  /** The poll of a step, from an idle session, is allowed by the protocol
      and begins a step exactly when it ends in OK. */
  lemma PollEventsFacts(begin: Oracle, s: nat, size: nat, ses: Session)
    requires ses.phase == Idle
    ensures Run(size, ses, PollEvents(begin, s)) == Some(AfterPoll(ses, FinalPoll(begin, s).status))
  {
    FinalPollFacts(begin, s);
    AttemptsFacts(begin, s, FinalPoll(begin, s).tries, size, ses);
  }

  /** The session state a completed step leaves behind: one more step begun
      and ended, and one more block moved when the variable resolved. */
  function AfterStep(ses: Session, found: bool): Session {
    Session(Idle, ses.begun + 1, ses.ended + 1, ses.moved + (if found then 1 else 0))
  }

  /** A step whose poll ends in OK, from an idle session, is allowed by the
      protocol: it begins and ends one step and moves one block exactly when
      the variable resolved. */
  lemma StepEventsFacts(size: nat, begin: Oracle, s: nat, found: bool, ses: Session)
    requires Ready(begin, s)
    requires ses.phase == Idle
    ensures Run(size, ses, PollEvents(begin, s) + StepBody(found, size)) == Some(AfterStep(ses, found))
  {
    PollEventsFacts(begin, s, size, ses);
    StepBodyFacts(found, size, AfterPoll(ses, OK));
    RunThen(size, ses, PollEvents(begin, s), AfterPoll(ses, OK), StepBody(found, size), AfterStep(ses, found));
  }

  /** Appending the entry of step `|log|` to a log of completed steps. */
  lemma LogExtend(cfg: Config, begin: Oracle, inquire: nat -> bool, fetch: Fetch, log: seq<StepLog>, entry: StepLog)
    requires forall s :: 0 <= s < |log| ==> StepDone(cfg, begin, inquire, fetch, s, log[s])
    requires StepDone(cfg, begin, inquire, fetch, |log|, entry)
    ensures forall s :: 0 <= s < |log| + 1 ==> StepDone(cfg, begin, inquire, fetch, s, (log + [entry])[s])
  {
  }

  /** The session `n` completed steps after `ses`: `n` more steps begun and
      ended, and one more block fetched per resolved variable. */
  function Reached(ses: Session, inquire: nat -> bool, n: nat): Session {
    Session(Idle, ses.begun + n, ses.ended + n, ses.moved + ResolvedSteps(inquire, n))
  }

  /** No completed step leaves an idle session as it was. */
  lemma ReachedZero(ses: Session, inquire: nat -> bool)
    requires ses.phase == Idle
    ensures Reached(ses, inquire, 0) == ses
  {
  }

  /** One more completed step moves the session one step further. */
  lemma ReachedNext(ses: Session, inquire: nat -> bool, n: nat)
    ensures AfterStep(Reached(ses, inquire, n), inquire(n)) == Reached(ses, inquire, n + 1)
  {
  }

  /** The blocks `ev(0)`, ..., `ev(n - 1)`, one after the other. */
  function Joined(ev: nat -> seq<Event>, n: nat): seq<Event>
    decreases n
  {
    if n == 0 then [] else Joined(ev, n - 1) + ev(n - 1)
  }

  /** Blocks each of which carries the session from one completed step to
      the next are, joined, allowed by the protocol and complete `n` steps. */
  lemma {:induction false} JoinedRun(size: nat, ev: nat -> seq<Event>, inquire: nat -> bool, n: nat, ses: Session)
    requires forall s :: 0 <= s < n ==> Run(size, Reached(ses, inquire, s), ev(s)) == Some(Reached(ses, inquire, s + 1))
    requires ses.phase == Idle
    ensures Run(size, ses, Joined(ev, n)) == Some(Reached(ses, inquire, n))
    decreases n
  {
    if n > 0 {
      JoinedRun(size, ev, inquire, n - 1, ses);
      RunThen(size, ses, Joined(ev, n - 1), Reached(ses, inquire, n - 1), ev(n - 1), Reached(ses, inquire, n));
    } else {
      ReachedZero(ses, inquire);
      assert Joined(ev, 0) == [];
    }
  }

  /** A trace of a pure reader: it never begins a step in update mode and
      never Puts. */
  predicate ReadsOnly(t: seq<Event>) {
    forall k :: 0 <= k < |t| ==> !t[k].Put? && !t[k].BeginUpdate?
  }

  /** A reader trace stays one when extended by another. */
  lemma ReadsOnlyConcat(a: seq<Event>, b: seq<Event>)
    requires ReadsOnly(a) && ReadsOnly(b)
    ensures ReadsOnly(a + b)
  {
  }

  /** Blocks that make only reads, joined, make only reads. */
  lemma {:induction false} JoinedReadsOnly(ev: nat -> seq<Event>, n: nat)
    requires forall s :: 0 <= s < n ==> ReadsOnly(ev(s))
    ensures ReadsOnly(Joined(ev, n))
    decreases n
  {
    if n > 0 {
      JoinedReadsOnly(ev, n - 1);
      ReadsOnlyConcat(Joined(ev, n - 1), ev(n - 1));
    }
  }

  /** The engine calls of each completed step: its poll, then its body. */
  function StepEvents(cfg: Config, begin: Oracle, inquire: nat -> bool): nat -> seq<Event> {
    (s: nat) => PollEvents(begin, s) + StepBody(inquire(s), cfg.size)
  }

  /** The engine calls of the first `n` steps when all of them completed. */
  function ReaderSteps(cfg: Config, begin: Oracle, inquire: nat -> bool, n: nat): seq<Event> {
    Joined(StepEvents(cfg, begin, inquire), n)
  }

  /** A completed step extends the reader's trace by one step of
      ReaderSteps. */
  lemma ReaderStepsExtend(cfg: Config, begin: Oracle, inquire: nat -> bool, n: nat, events: seq<Event>)
    requires events == PollEvents(begin, n) + StepBody(inquire(n), cfg.size)
    ensures ([Open] + ReaderSteps(cfg, begin, inquire, n)) + events == [Open] + ReaderSteps(cfg, begin, inquire, n + 1)
  {
  }

  /** The engine calls of a completed step make only reads: the poll issues
      BeginStep calls and sleeps, the body an inquiry, a Get and EndStep. */
  lemma StepReadsOnly(begin: Oracle, s: nat, found: bool, size: nat)
    ensures ReadsOnly(PollEvents(begin, s))
    ensures ReadsOnly(PollEvents(begin, s) + StepBody(found, size))
  {
    AttemptsOnlyPolls(begin, s, FinalPoll(begin, s).tries);
    var body := StepBody(found, size);
    assert ReadsOnly(body) by {
      assert found ==> body == [Inquire(found), Get(size), EndStep];
      assert !found ==> body == [Inquire(found), EndStep];
    }
    ReadsOnlyConcat(PollEvents(begin, s), body);
  }

  /** `n` completed steps, from an idle session, are allowed by the
      protocol: they begin and end `n` steps and fetch one block per
      resolved variable. */
  lemma ReaderStepsFacts(cfg: Config, begin: Oracle, inquire: nat -> bool, n: nat, ses: Session)
    requires forall s :: 0 <= s < n ==> Ready(begin, s)
    requires ses.phase == Idle
    ensures Run(cfg.size, ses, ReaderSteps(cfg, begin, inquire, n)) == Some(Reached(ses, inquire, n))
  {
    var ev := StepEvents(cfg, begin, inquire);
    forall s | 0 <= s < n
      ensures Run(cfg.size, Reached(ses, inquire, s), ev(s)) == Some(Reached(ses, inquire, s + 1))
    {
      StepEventsFacts(cfg.size, begin, s, inquire(s), Reached(ses, inquire, s));
      ReachedNext(ses, inquire, s);
    }
    JoinedRun(cfg.size, ev, inquire, n, ses);
  }

  /** Completed steps make only reads. */
  lemma ReaderStepsReadOnly(cfg: Config, begin: Oracle, inquire: nat -> bool, n: nat)
    ensures ReadsOnly(ReaderSteps(cfg, begin, inquire, n))
  {
    var ev := StepEvents(cfg, begin, inquire);
    forall s | 0 <= s < n
      ensures ReadsOnly(ev(s))
    {
      StepReadsOnly(begin, s, inquire(s), cfg.size);
    }
    JoinedReadsOnly(ev, n);
  }

  /** The engine calls of a whole reader session: Open, `n` completed
      steps, the failed poll of step `n` when there is one, and Close. */
  function ReaderTrace(cfg: Config, begin: Oracle, inquire: nat -> bool, n: nat, failed: bool): seq<Event> {
    [Open] + ReaderSteps(cfg, begin, inquire, n) + (if failed then PollEvents(begin, n) else []) + [Close]
  }

  /** A whole reader session conforms to the protocol, with `n` steps
      begun and ended and one block fetched per resolved variable. */
  lemma ReaderSessionFacts(cfg: Config, begin: Oracle, inquire: nat -> bool, n: nat, failed: bool)
    requires forall s :: 0 <= s < n ==> Ready(begin, s)
    requires failed ==> !Ready(begin, n)
    ensures Run(cfg.size, Start, ReaderTrace(cfg, begin, inquire, n, failed))
            == Some(Session(Detached, n, n, ResolvedSteps(inquire, n)))
  {
    var idle := Session(Idle, 0, 0, 0);
    var last := Reached(idle, inquire, n);
    ReaderStepsFacts(cfg, begin, inquire, n, idle);
    if failed {
      PollEventsFacts(begin, n, cfg.size, last);
    }
    SessionOf(cfg.size, ReaderSteps(cfg, begin, inquire, n), last,
              if failed then PollEvents(begin, n) else [], last);
  }

  /** A whole reader session makes only reads. */
  lemma ReaderSessionReadsOnly(cfg: Config, begin: Oracle, inquire: nat -> bool, n: nat, failed: bool)
    ensures ReadsOnly(ReaderTrace(cfg, begin, inquire, n, failed))
  {
    var steps := ReaderSteps(cfg, begin, inquire, n);
    var tail := if failed then PollEvents(begin, n) else [];
    ReaderStepsReadOnly(cfg, begin, inquire, n);
    if failed {
      StepReadsOnly(begin, n, false, cfg.size);
    }
    assert ReadsOnly(tail) && ReadsOnly([Open]) && ReadsOnly([Close]);
    ReadsOnlyConcat([Open], steps);
    ReadsOnlyConcat([Open] + steps, tail);
    ReadsOnlyConcat([Open] + steps + tail, [Close]);
  }

  /** One iteration of the reader loop for step `s`, on a session that is
      between steps: the bounded poll and, when it ends in OK, the inquiry,
      the Get on success, EndStep, and the optional content check. A failed
      poll leaves the session's counters as they were. */
  method ReadStep(cfg: Config, begin: Oracle, inquire: nat -> bool, fetch: Fetch, s: nat, ghost ses: Session)
    returns (p: Poll, entry: StepLog, events: seq<Event>)
    requires ses.phase == Idle
    ensures p == FinalPoll(begin, s)
    ensures p.status == OK ==> StepDone(cfg, begin, inquire, fetch, s, entry)
    ensures events == PollEvents(begin, s) + (if p.status == OK then StepBody(inquire(s), cfg.size) else [])
    ensures Run(cfg.size, ses, events) == Some(if p.status == OK then AfterStep(ses, inquire(s)) else ses)
    ensures ReadsOnly(events)
  {
    var polls;
    p, polls := BeginWithRetry(begin, s);
    if p.status != OK {
      // No inquiry is made after a failed poll; the entry is not logged.
      entry := StepLog(p.tries, false, None);
      StepReadsOnly(begin, s, inquire(s), cfg.size);
      ConcatEmpty(polls);
      events := polls;
      PollEventsFacts(begin, s, cfg.size, ses);
      return;
    }
    var found := inquire(s);
    var mismatch := None;
    StepReadsOnly(begin, s, found, cfg.size);
    events := polls + StepBody(found, cfg.size);
    StepEventsFacts(cfg.size, begin, s, found, ses);
    if cfg.check && found {
      mismatch := FindMismatch(Delivered(fetch, s, cfg.size));
    }
    entry := StepLog(p.tries, found, mismatch);
  }

  /** The reader's step loop, from Open to Close. It completes `step` steps,
      never more than requested; it stops early exactly at the first step
      whose poll does not end in OK, and reports that poll; every completed
      step is logged as the benchmark's reader records it. The trace is
      Open, the poll and body of every completed step, the poll of the step
      that stopped the loop if any, and Close; it holds no Put and no update
      BeginStep, and follows the step protocol: the session ends detached
      with one step begun and ended per completed step and one block
      fetched per resolved variable. */
  method RunReader(cfg: Config, begin: Oracle, inquire: nat -> bool, fetch: Fetch)
    returns (step: nat, log: seq<StepLog>, stop: Option<Poll>, trace: seq<Event>)
    ensures step <= cfg.count && |log| == step
    ensures forall s :: 0 <= s < step ==> StepDone(cfg, begin, inquire, fetch, s, log[s])
    ensures stop.None? <==> step == cfg.count
    ensures stop.Some? ==> stop.value == FinalPoll(begin, step) && stop.value.status != OK
    ensures trace == ReaderTrace(cfg, begin, inquire, step, stop.Some?)
    ensures ReadsOnly(trace)
    ensures Run(cfg.size, Start, trace) == Some(Session(Detached, step, step, ResolvedSteps(inquire, step)))
    ensures Conforms(cfg.size, trace)
  {
    step := 0;
    log := [];
    stop := None;
    trace := [Open];
    while step < cfg.count
      invariant step <= cfg.count && |log| == step && stop.None?
      invariant forall s :: 0 <= s < step ==> StepDone(cfg, begin, inquire, fetch, s, log[s])
      invariant trace == [Open] + ReaderSteps(cfg, begin, inquire, step)
    {
      ghost var ses := Session(Idle, step, step, ResolvedSteps(inquire, step));
      var p, entry, events := ReadStep(cfg, begin, inquire, fetch, step, ses);
      if p.status != OK {
        ConcatEmpty(PollEvents(begin, step));
        trace := trace + events;
        stop := Some(p);
        break;
      }
      ReaderStepsExtend(cfg, begin, inquire, step, events);
      trace := trace + events;
      LogExtend(cfg, begin, inquire, fetch, log, entry);
      log := log + [entry];
      step := step + 1;
    }
    forall s | 0 <= s < step
      ensures Ready(begin, s)
    {
      assert StepDone(cfg, begin, inquire, fetch, s, log[s]);
    }
    if stop.None? {
      ConcatEmpty([Open] + ReaderSteps(cfg, begin, inquire, step));
    }
    ReaderSessionFacts(cfg, begin, inquire, step, stop.Some?);
    ReaderSessionReadsOnly(cfg, begin, inquire, step, stop.Some?);
    trace := trace + [Close];
  }
}
