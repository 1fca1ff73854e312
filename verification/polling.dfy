/** The reader's bounded poll for the next step: BeginStep is retried while
    it answers NotReady, with a sleep after every NotReady answer, for at most
    `MaxTries` attempts. */
module Polling {
  import opened Engine

  /** The retry budget of one step. */
  const MaxTries: nat := 10000

  /** How one step's poll ended: the last status seen and the number of
      BeginStep calls made. */
  datatype Poll = Poll(status: StepStatus, tries: nat)

  /** The status BeginStep returns on attempt `a` (0-based) of step `s` is
      `begin(s, a)`. Each call of the reader loop belongs to exactly one step
      and attempt, so this indexes the engine's answers without loss. */
  type Oracle = (nat, nat) -> StepStatus

  /** The poll of step `s` from attempt `attempt` onwards: ask, and ask
      again after a NotReady answer while the budget lasts. */
  function PollFrom(begin: Oracle, s: nat, attempt: nat): Poll
    requires attempt < MaxTries
    decreases MaxTries - attempt
  {
    var status := begin(s, attempt);
    if status == NotReady && attempt + 1 < MaxTries then PollFrom(begin, s, attempt + 1)
    else Poll(status, attempt + 1)
  }

  /** A poll from attempt `attempt` makes at least one and at most the
      remaining budget of calls, reports the last answer, saw NotReady on
      every earlier call, and reports NotReady only once the budget is
      spent. */
  lemma {:induction false} PollFromFacts(begin: Oracle, s: nat, attempt: nat)
    requires attempt < MaxTries
    ensures attempt < PollFrom(begin, s, attempt).tries <= MaxTries
    ensures PollFrom(begin, s, attempt).status == begin(s, PollFrom(begin, s, attempt).tries - 1)
    ensures forall a :: attempt <= a < PollFrom(begin, s, attempt).tries - 1 ==> begin(s, a) == NotReady
    ensures PollFrom(begin, s, attempt).status == NotReady ==> PollFrom(begin, s, attempt).tries == MaxTries
    decreases MaxTries - attempt
  {
    if begin(s, attempt) == NotReady && attempt + 1 < MaxTries {
      PollFromFacts(begin, s, attempt + 1);
    }
  }

  /** How the poll of step `s` ends. */
  function FinalPoll(begin: Oracle, s: nat): Poll {
    PollFrom(begin, s, 0)
  }

  /** The poll of a step calls BeginStep between once and MaxTries times;
      the last answer is the reported status; every earlier answer was
      NotReady; and a NotReady outcome means the whole budget was spent. */
  lemma FinalPollFacts(begin: Oracle, s: nat)
    ensures 1 <= FinalPoll(begin, s).tries <= MaxTries
    ensures FinalPoll(begin, s).status == begin(s, FinalPoll(begin, s).tries - 1)
    ensures forall a :: 0 <= a < FinalPoll(begin, s).tries - 1 ==> begin(s, a) == NotReady
    ensures FinalPoll(begin, s).status == NotReady ==> FinalPoll(begin, s).tries == MaxTries
  {
    PollFromFacts(begin, s, 0);
  }

  /** If the step never becomes ready, the budget is spent exactly. */
  lemma NeverReadyExhaustsBudget(begin: Oracle, s: nat)
    requires forall a :: 0 <= a < MaxTries ==> begin(s, a) == NotReady
    ensures FinalPoll(begin, s) == Poll(NotReady, MaxTries)
  {
    FinalPollFacts(begin, s);
  }

  /** The four facts stated by FinalPollFacts pin the poll down: any count of
      attempts and final status that satisfies them is the poll. */
  lemma PollDetermined(begin: Oracle, s: nat, status: StepStatus, tries: nat)
    requires 1 <= tries <= MaxTries
    requires status == begin(s, tries - 1)
    requires forall a :: 0 <= a < tries - 1 ==> begin(s, a) == NotReady
    requires status == NotReady ==> tries == MaxTries
    ensures FinalPoll(begin, s) == Poll(status, tries)
  {
    FinalPollFacts(begin, s);
    var q := FinalPoll(begin, s);
    var lastOfQ: nat, lastOfP: nat := q.tries - 1, tries - 1;
    assert q.tries < tries ==> begin(s, lastOfQ) == NotReady;
    assert tries < q.tries ==> begin(s, lastOfP) == NotReady;
  }

  /** If some attempt within the budget gets an answer other than NotReady,
      the poll stops at the first such attempt. */
  lemma PollStopsAtFirstAnswer(begin: Oracle, s: nat, a: nat)
    requires a < MaxTries
    requires begin(s, a) != NotReady
    requires forall b :: 0 <= b < a ==> begin(s, b) == NotReady
    ensures FinalPoll(begin, s) == Poll(begin(s, a), a + 1)
  {
    PollDetermined(begin, s, begin(s, a), a + 1);
  }

  /** The events of one attempt: the BeginStep call and, after a NotReady
      answer, the sleep. */
  function AttemptEvents(status: StepStatus): seq<Event> {
    [BeginRead(status)] + (if status == NotReady then [Sleep] else [])
  }

  /** The state a poll leaves an idle session in: inside a newly begun read
      step after OK, unchanged otherwise. */
  function AfterPoll(ses: Session, status: StepStatus): Session {
    if status == OK then ses.(phase := Reading(None), begun := ses.begun + 1) else ses
  }

  /** One attempt, from an idle session, is allowed by the protocol and
      leaves the session where its answer says; it issues nothing but the
      BeginStep call and the sleep. */
  lemma AttemptFacts(size: nat, ses: Session, status: StepStatus)
    requires ses.phase == Idle
    ensures Run(size, ses, AttemptEvents(status)) == Some(AfterPoll(ses, status))
    ensures forall k :: 0 <= k < |AttemptEvents(status)| ==>
              AttemptEvents(status)[k].BeginRead? || AttemptEvents(status)[k] == Sleep
  {
    var t := AttemptEvents(status);
    if status == NotReady {
      var backoff := ses.(phase := Backoff);
      assert t[0] == BeginRead(NotReady) && t[1..] == [Sleep];
      assert Next(size, ses, t[0]) == Some(backoff);
      assert Run(size, ses, t[1..][1..]) == Some(ses);
      assert Run(size, backoff, t[1..]) == Some(ses);
    } else {
      assert t[1..] == [];
    }
  }

  /** The events of the first `n` attempts of step `s`. */
  function Attempts(begin: Oracle, s: nat, n: nat): seq<Event>
    decreases n
  {
    if n == 0 then [] else Attempts(begin, s, n - 1) + AttemptEvents(begin(s, n - 1))
  }

  /** The attempts of a poll whose earlier answers were all NotReady: from
      an idle session they are allowed by the protocol and leave it where the
      last answer says (a step begun only when that answer is OK). */
  lemma {:induction false} AttemptsFacts(begin: Oracle, s: nat, n: nat, size: nat, ses: Session)
    requires 1 <= n
    requires forall a :: 0 <= a < n - 1 ==> begin(s, a) == NotReady
    requires ses.phase == Idle
    ensures Run(size, ses, Attempts(begin, s, n)) == Some(AfterPoll(ses, begin(s, n - 1)))
    decreases n
  {
    var prev, last := Attempts(begin, s, n - 1), AttemptEvents(begin(s, n - 1));
    AttemptFacts(size, ses, begin(s, n - 1));
    if n == 1 {
      assert Attempts(begin, s, n) == last;
    } else {
      assert Attempts(begin, s, n) == prev + last;
      AttemptsFacts(begin, s, n - 1, size, ses);
      RunAppend(size, ses, prev, last);
    }
  }

  /** Any number of attempts issues only BeginStep calls and sleeps. */
  lemma {:induction false} AttemptsOnlyPolls(begin: Oracle, s: nat, n: nat)
    ensures forall k :: 0 <= k < |Attempts(begin, s, n)| ==>
              Attempts(begin, s, n)[k].BeginRead? || Attempts(begin, s, n)[k] == Sleep
    decreases n
  {
    if n > 0 {
      var prev, last := Attempts(begin, s, n - 1), AttemptEvents(begin(s, n - 1));
      AttemptsOnlyPolls(begin, s, n - 1);
      assert last[0].BeginRead? && forall k :: 1 <= k < |last| ==> last[k] == Sleep;
      forall k | 0 <= k < |prev + last|
        ensures (prev + last)[k].BeginRead? || (prev + last)[k] == Sleep
      {
        if k >= |prev| {
          assert (prev + last)[k] == last[k - |prev|];
        }
      }
    }
  }

  /** The do-while retry loop of one reader step. It returns how the poll
      ended and the events it produced: the BeginStep calls and sleeps of
      every attempt, in order. */
  method BeginWithRetry(begin: Oracle, s: nat) returns (p: Poll, events: seq<Event>)
    ensures p == FinalPoll(begin, s)
    ensures events == Attempts(begin, s, p.tries)
    ensures forall k :: 0 <= k < |events| ==> events[k].BeginRead? || events[k] == Sleep
  {
    var status := begin(s, 0);
    var tries := 1;
    events := AttemptEvents(status);
    assert events == Attempts(begin, s, 1);
    while status == NotReady && tries < MaxTries
      invariant 1 <= tries <= MaxTries
      invariant status == begin(s, tries - 1)
      invariant forall a :: 0 <= a < tries - 1 ==> begin(s, a) == NotReady
      invariant events == Attempts(begin, s, tries)
      decreases MaxTries - tries
    {
      status := begin(s, tries);
      events := events + AttemptEvents(status);
      tries := tries + 1;
    }
    p := Poll(status, tries);
    PollDetermined(begin, s, status, tries);
    AttemptsOnlyPolls(begin, s, tries);
  }
}
