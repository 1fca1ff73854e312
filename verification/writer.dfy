/** The writer role: fill the payload once, then publish `count` steps, each
    one BeginStep in update mode, a Put of the buffer's first block, and
    EndStep, without looking at what BeginStep answers. */
module Writer {
  import opened Engine
  import opened Payload

  /** The engine calls of one published step. */
  function WriteStep(size: nat): seq<Event> {
    [BeginUpdate, Put(PatternBlock(size)), EndStep]
  }

  /** One write step, from an idle session, is allowed by the protocol: it
      begins and ends one step and moves one block. */
  lemma WriteStepFacts(size: nat, ses: Session)
    requires ses.phase == Idle
    ensures Run(size, ses, WriteStep(size)) == Some(Session(Idle, ses.begun + 1, ses.ended + 1, ses.moved + 1))
  {
    var t := WriteStep(size);
    var writing := ses.(phase := Writing(false), begun := ses.begun + 1);
    var put := writing.(phase := Writing(true), moved := ses.moved + 1);
    assert t[1..] == [Put(PatternBlock(size)), EndStep];
    assert t[1..][1..] == [EndStep];
    assert t[1..][1..][1..] == [];
    assert Run(size, put, t[1..][1..]) == Some(Session(Idle, ses.begun + 1, ses.ended + 1, ses.moved + 1));
    assert Run(size, writing, t[1..]) == Run(size, put, t[1..][1..]);
  }

  /** `n` write steps, from an idle session, are allowed by the protocol:
      they begin and end `n` steps and move `n` blocks. */
  lemma {:induction false} RepeatedStepsFacts(size: nat, n: nat, ses: Session)
    requires ses.phase == Idle
    ensures Run(size, ses, Repeat(WriteStep(size), n)) == Some(Session(Idle, ses.begun + n, ses.ended + n, ses.moved + n))
    decreases n
  {
    if n == 0 {
      assert Repeat(WriteStep(size), 0) == [];
    } else {
      var prev := Repeat(WriteStep(size), n - 1);
      assert Repeat(WriteStep(size), n) == prev + WriteStep(size);
      RepeatedStepsFacts(size, n - 1, ses);
      RunAppend(size, ses, prev, WriteStep(size));
      WriteStepFacts(size, Session(Idle, ses.begun + n - 1, ses.ended + n - 1, ses.moved + n - 1));
    }
  }

  /** The writer's whole session: Open, `count` write steps, Close. It
      conforms to the protocol and begins, ends and moves `count` of each. */
  lemma WriterSessionFacts(size: nat, count: nat)
    ensures Run(size, Start, [Open] + Repeat(WriteStep(size), count) + [Close])
            == Some(Session(Detached, count, count, count))
  {
    var steps := Repeat(WriteStep(size), count);
    var idle := Session(Idle, 0, 0, 0);
    OpenFromStart(size);
    RepeatedStepsFacts(size, count, idle);
    CloseFromIdle(size, Session(Idle, count, count, count));
    RunAppend(size, Start, [Open], steps);
    RunAppend(size, Start, [Open] + steps, [Close]);
  }

  /** The writer's step loop: exactly `count` BeginStep/Put/EndStep triples,
      in that order, between Open and Close; the loop counter ends at
      `count`; the session conforms to the protocol with `count` steps begun,
      ended and blocks moved; and every Put sends the pattern block. */
  method RunWriter(size: nat, count: nat) returns (i: nat, trace: seq<Event>)
    ensures i == count
    ensures trace == [Open] + Repeat(WriteStep(size), count) + [Close]
    ensures Run(size, Start, trace) == Some(Session(Detached, count, count, count))
    ensures Conforms(size, trace)
    ensures forall k :: 0 <= k < |trace| && trace[k].Put? ==> trace[k].block == PatternBlock(size)
  {
    var buf := FillPayload(size, count);
    trace := [Open];
    assert Repeat(WriteStep(size), 0) == [];
    i := 0;
    while i < count
      invariant i <= count
      invariant trace == [Open] + Repeat(WriteStep(size), i)
      invariant forall k :: 0 <= k < |trace| && trace[k].Put? ==> trace[k].block == PatternBlock(size)
    {
      FirstBlockIsPattern(buf, size, count);
      var step := [BeginUpdate, Put(buf[..size]), EndStep];
      assert step == WriteStep(size);
      assert Repeat(WriteStep(size), i + 1) == Repeat(WriteStep(size), i) + step;
      trace := trace + step;
      i := i + 1;
    }
    trace := trace + [Close];
    WriterSessionFacts(size, count);
  }
}
