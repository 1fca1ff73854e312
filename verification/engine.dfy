/** Abstract view of the streaming engine both benchmark roles drive: the
    statuses a BeginStep can report, the engine calls the roles make (recorded
    as a trace of events), and the step protocol those calls must follow. */
module Engine {

  /** What a reader's BeginStep reports (the four outcomes of adios2::StepStatus
      the benchmark can distinguish). */
  datatype StepStatus = OK | NotReady | EndOfStream | OtherError

  datatype Option<T> = None | Some(value: T)

  /** One observable action of a role on its engine. The reader's back-off
      sleep is recorded too, since the polling policy is stated in terms of it. */
  datatype Event =
    | Open                            // io.Open of the stream
    | Close                           // engine Close
    | BeginRead(status: StepStatus)   // reader BeginStep in read mode, with its answer
    | BeginUpdate                     // writer BeginStep in update mode (answer never inspected)
    | Sleep                           // back-off after a NotReady answer
    | Inquire(found: bool)            // InquireVariable("data"), and whether it resolved
    | Put(block: seq<int>)            // writer Put of one block
    | Get(length: nat)                // reader Get of `length` entries from offset 0
    | EndStep

  /** Where an engine stands in the step protocol. */
  datatype Phase =
    | Detached                        // not yet opened, or closed
    | Idle                            // open, between steps
    | Backoff                         // a poll answered NotReady; the sleep is due
    | Reading(inquiry: Option<bool>)  // inside a read step, before Get
    | Fetched                         // inside a read step, after Get
    | Writing(put: bool)              // inside a write step

  predicate InStep(p: Phase) {
    p.Reading? || p.Fetched? || p.Writing?
  }

  /** A session's protocol state: its phase, and how many steps it has begun
      and ended and how many blocks it has moved (Put or Get) so far. */
  datatype Session = Session(phase: Phase, begun: nat, ended: nat, moved: nat)

  /** A session before Open. */
  const Start: Session := Session(Detached, 0, 0, 0)

  /** The step protocol for a variable of `size` entries: the state an event
      leads to, or None when the event is not allowed. A step is begun by an
      OK read poll or an update BeginStep and ended only by EndStep; Get needs
      a resolved variable and moves exactly `size` entries; Put moves one
      block of `size` entries; Sleep is due exactly after a NotReady poll. */
  function Next(size: nat, s: Session, e: Event): Option<Session>
  {
    var p := s.phase;
    match e
    case Open => if p == Detached then Some(s.(phase := Idle)) else None
    case Close => if p == Idle then Some(s.(phase := Detached)) else None
    case BeginRead(status) =>
      if p != Idle then None
      else if status == OK then Some(s.(phase := Reading(None), begun := s.begun + 1))
      else if status == NotReady then Some(s.(phase := Backoff))
      else Some(s)
    case BeginUpdate =>
      if p == Idle then Some(s.(phase := Writing(false), begun := s.begun + 1)) else None
    case Sleep => if p == Backoff then Some(s.(phase := Idle)) else None
    case Inquire(found) =>
      if p == Reading(None) then Some(s.(phase := Reading(Some(found)))) else None
    case Get(length) =>
      if p == Reading(Some(true)) && length == size
      then Some(s.(phase := Fetched, moved := s.moved + 1)) else None
    case Put(block) =>
      if p == Writing(false) && |block| == size
      then Some(s.(phase := Writing(true), moved := s.moved + 1)) else None
    case EndStep => if InStep(p) then Some(s.(phase := Idle, ended := s.ended + 1)) else None
  }

  /** Replays a trace from state `s`; None if some event is not allowed. */
  function Run(size: nat, s: Session, t: seq<Event>): Option<Session>
    decreases |t|
  {
    if |t| == 0 then Some(s)
    else match Next(size, s, t[0])
      case None => None
      case Some(s') => Run(size, s', t[1..])
  }

  /** A whole session: opened, every step ended, and closed again. */
  predicate Conforms(size: nat, t: seq<Event>) {
    Run(size, Start, t).Some? && Run(size, Start, t).value.phase == Detached
  }

  /** Replaying a concatenation replays its halves one after the other. */
  lemma {:induction false} RunAppend(size: nat, s: Session, a: seq<Event>, b: seq<Event>)
    ensures Run(size, s, a + b) == (match Run(size, s, a) case None => None case Some(s') => Run(size, s', b))
    decreases |a|
  {
    if |a| > 0 {
      assert (a + b)[0] == a[0];
      assert (a + b)[1..] == a[1..] + b;
      match Next(size, s, a[0])
      case None =>
      case Some(s') => RunAppend(size, s', a[1..], b);
    } else {
      assert a + b == b;
    }
  }

  /** Appending nothing to a trace. Stated on a plain variable, so that
      callers need not compare long traces entry by entry. */
  lemma ConcatEmpty(a: seq<Event>)
    ensures a + [] == a
  {
  }

  /** Two allowed stretches, the second starting where the first ends, form
      an allowed stretch. */
  lemma RunThen(size: nat, s: Session, a: seq<Event>, m: Session, b: seq<Event>, f: Session)
    requires Run(size, s, a) == Some(m)
    requires Run(size, m, b) == Some(f)
    ensures Run(size, s, a + b) == Some(f)
  {
    RunAppend(size, s, a, b);
  }

  /** Closing an idle session detaches it and changes no counter. */
  lemma CloseFromIdle(size: nat, s: Session)
    requires s.phase == Idle
    ensures Run(size, s, [Close]) == Some(s.(phase := Detached))
  {
  }

  /** Closing a session that is between steps ends it, counters unchanged. */
  lemma CloseAfter(size: nat, t: seq<Event>, s: Session)
    requires Run(size, Start, t) == Some(s)
    requires s.phase == Idle
    ensures Run(size, Start, t + [Close]) == Some(s.(phase := Detached))
  {
    CloseFromIdle(size, s);
    RunThen(size, Start, t, s, [Close], s.(phase := Detached));
  }

  /** Opening a fresh session leaves it idle with nothing counted. */
  lemma OpenFromStart(size: nat)
    ensures Run(size, Start, [Open]) == Some(Session(Idle, 0, 0, 0))
  {
  }

  /** A whole session built from two stretches: Open, a stretch from a
      fresh idle session to `m`, a stretch from `m` back to `f`, and Close
      from between steps. */
  lemma SessionOf(size: nat, a: seq<Event>, m: Session, b: seq<Event>, f: Session)
    requires Run(size, Session(Idle, 0, 0, 0), a) == Some(m)
    requires Run(size, m, b) == Some(f)
    requires f.phase == Idle
    ensures Run(size, Start, [Open] + a + b + [Close]) == Some(f.(phase := Detached))
  {
    OpenFromStart(size);
    RunThen(size, Start, [Open], Session(Idle, 0, 0, 0), a, m);
    RunThen(size, Start, [Open] + a, m, b, f);
    CloseAfter(size, [Open] + a + b, f);
  }

  /** Number of occurrences of `e` in `t`. */
  function Count(t: seq<Event>, e: Event): nat
    decreases |t|
  {
    if |t| == 0 then 0 else (if t[0] == e then 1 else 0) + Count(t[1..], e)
  }

  /** Number of Put and Get events in `t`. */
  function Transfers(t: seq<Event>): nat
    decreases |t|
  {
    if |t| == 0 then 0 else (if t[0].Put? || t[0].Get? then 1 else 0) + Transfers(t[1..])
  }

  /** The counters of a session count what their names say: steps begun are
      OK read polls plus update BeginSteps, steps ended are EndSteps, blocks
      moved are Puts plus Gets. */
  lemma {:induction false} CountersCount(size: nat, s: Session, t: seq<Event>, s': Session)
    requires Run(size, s, t) == Some(s')
    ensures s'.begun == s.begun + Count(t, BeginRead(OK)) + Count(t, BeginUpdate)
    ensures s'.ended == s.ended + Count(t, EndStep)
    ensures s'.moved == s.moved + Transfers(t)
    decreases |t|
  {
    if |t| > 0 {
      var s1 := Next(size, s, t[0]).value;
      CountersCount(size, s1, t[1..], s');
    }
  }

  function OpenSteps(p: Phase): nat {
    if InStep(p) then 1 else 0
  }

  /** Along any allowed trace, every step begun is ended, except the one
      still open at the end. */
  lemma {:induction false} StepsBalance(size: nat, s: Session, t: seq<Event>, s': Session)
    requires Run(size, s, t) == Some(s')
    ensures s'.begun - s.begun == (s'.ended - s.ended) + OpenSteps(s'.phase) - OpenSteps(s.phase)
    decreases |t|
  {
    if |t| > 0 {
      var s1 := Next(size, s, t[0]).value;
      StepsBalance(size, s1, t[1..], s');
    }
  }

  /** Along any allowed trace: a Sleep comes right after a NotReady poll, a
      NotReady poll is followed right away by a Sleep, a Get comes right after
      an Inquire that resolved the variable, and Gets and Puts move exactly
      one block of `size` entries. */
  lemma {:induction false} Adjacency(size: nat, s: Session, t: seq<Event>, s': Session)
    requires Run(size, s, t) == Some(s')
    ensures forall k {:trigger t[k]} :: 0 <= k < |t| && t[k] == Sleep ==>
              if k == 0 then s.phase == Backoff else t[k - 1] == BeginRead(NotReady)
    ensures forall k {:trigger t[k]} :: 0 <= k < |t| && t[k] == BeginRead(NotReady) ==>
              if k + 1 == |t| then s'.phase == Backoff else t[k + 1] == Sleep
    ensures forall k {:trigger t[k]} :: 0 <= k < |t| && t[k].Get? ==>
              t[k].length == size &&
              if k == 0 then s.phase == Reading(Some(true)) else t[k - 1] == Inquire(true)
    ensures forall k {:trigger t[k]} :: 0 <= k < |t| && t[k].Put? ==> |t[k].block| == size
    decreases |t|
  {
    if |t| > 0 {
      var s1 := Next(size, s, t[0]).value;
      var rest := t[1..];
      Adjacency(size, s1, rest, s');
      forall k | 0 < k < |t|
        ensures rest[k - 1] == t[k]
      {
      }
      forall k | 0 <= k < |t| && t[k] == BeginRead(NotReady)
        ensures if k + 1 == |t| then s'.phase == Backoff else t[k + 1] == Sleep
      {
        if k == 0 {
          assert s1.phase == Backoff;
          if |rest| == 0 {
            assert Run(size, s1, rest) == Some(s1);
          } else {
            assert rest[0] == t[1];
          }
        } else if k + 1 < |t| {
          assert rest[k] == t[k + 1];
        }
      }
    }
  }

  /** What every conforming session guarantees: EndStep is called exactly
      once per step begun (OK read poll or update BeginStep), sleeps and
      NotReady polls come in adjacent pairs, Get is only issued right after a
      successful Inquire, and every Get and Put moves one whole block. */
  lemma ConformingSessionDiscipline(size: nat, t: seq<Event>)
    requires Conforms(size, t)
    ensures Count(t, EndStep) == Count(t, BeginRead(OK)) + Count(t, BeginUpdate)
    ensures forall k :: 0 <= k < |t| && t[k] == Sleep ==>
              0 < k && t[k - 1] == BeginRead(NotReady)
    ensures forall k {:trigger t[k]} :: 0 <= k < |t| && t[k] == BeginRead(NotReady) ==>
              k + 1 < |t| && t[k + 1] == Sleep
    ensures forall k :: 0 <= k < |t| && t[k].Get? ==>
              t[k].length == size && 0 < k && t[k - 1] == Inquire(true)
    ensures forall k :: 0 <= k < |t| && t[k].Put? ==> |t[k].block| == size
  {
    var s' := Run(size, Start, t).value;
    CountersCount(size, Start, t, s');
    StepsBalance(size, Start, t, s');
    Adjacency(size, Start, t, s');
  }
}
