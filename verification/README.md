# ADIOS2 streaming benchmark: a verified model

The benchmark runs as one of two roles on an ADIOS2 SST stream.

- **Writer.** Fills a buffer of `msz_size * msz_count` bytes with a periodic pattern. Then it publishes `msz_count` steps. Each step is one update-mode `BeginStep`, a `Put` of the buffer's first block, and `EndStep`.
- **Reader.** Polls `BeginStep` for each step. A NotReady answer is retried after a sleep, for at most 10000 attempts. The reader stops at the first step whose poll does not end in OK. Otherwise it:
  - inquires the variable `data`;
  - fetches `msz_size` entries only when the variable resolved, and always ends the step;
  - when checking is on and the variable resolved, scans the block for the first entry that differs from `i mod 255`.

The model has six modules.

- `Engine`: the abstract engine.
  - BeginStep statuses and the engine calls a role makes, recorded as a trace of events.
  - The step protocol, as an automaton over a session state with a phase and counters for steps begun, steps ended and blocks moved.
  - Lemmas about every trace the protocol allows.
- `Payload`: the writer's buffer, its fill loop and its structure.
- `Verification`: the reader's first-mismatch scan.
- `Polling`: the bounded BeginStep retry of one reader step, and the events it produces.
- `Writer`: the writer's step loop and its trace.
- `Reader`: the reader's step loop, its per-step log and its trace.

The engine's answers are inputs:

- `begin(s, a)` is the status of attempt `a` of step `s`;
- `inquire(s)` says whether the variable resolves in step `s`;
- `fetch(s, i)` is entry `i` of the reader's buffer once step `s` has ended.

## Model

| member | source | states |
|---|---|---|
| Payload.FillPayload | main_adios.cpp:33-37 | The buffer has `size * count` entries, entry `i` is `(i mod size) mod 255`, so every entry lies in 0..254; a zero size gives an empty buffer |
| Payload.PayloadPeriodic | main_adios.cpp:33-37 | The buffer is block-periodic: the entry one block further on is the same entry |
| Payload.PayloadIsRepeatedBlock | main_adios.cpp:33-37 | The buffer is exactly `count` copies of the pattern block (offset `i` holding `i mod 255`) |
| Payload.RepeatStartsWithBlock | main_adios.cpp:33-37 | Any positive number of copies of a block begins with that block, so the buffer's first block is a whole pattern block |
| Payload.RepeatPeriodic | main_adios.cpp:33-37 | Copies of a block repeat with the block's length as period |
| Payload.FirstBlockIsPattern | main_adios.cpp:33-37 | For at least one block, the first `size` entries, which are what every Put sends, are the pattern block |
| Verification.FindMismatch | main_adios.cpp:134-141 | The scan reports nothing exactly when every entry matches its expected value; otherwise it reports the smallest offset holding a wrong value |
| Verification.UnmodifiedBlockMatches | main_adios.cpp:136-137 | A block delivered unmodified from the writer's buffer passes the reader's check |
| Polling.PollFromFacts | main_adios.cpp:102-107 | From any attempt, the retry loop makes at least one call and stays within the 10000-call budget; it reports the last answer; every earlier answer was NotReady; it ends on NotReady only when the budget is spent |
| Polling.FinalPollFacts | main_adios.cpp:101-107 | A step's poll calls BeginStep between 1 and 10000 times; its status is the last answer; all earlier answers were NotReady; NotReady as final status means all 10000 calls were made |
| Polling.PollDetermined | main_adios.cpp:101-107 | The four facts above determine the poll: any attempt count and status meeting them is the poll's |
| Polling.NeverReadyExhaustsBudget | main_adios.cpp:102-107 | If every attempt answers NotReady, BeginStep is called exactly 10000 times and the poll ends NotReady |
| Polling.PollStopsAtFirstAnswer | main_adios.cpp:102-107 | The poll stops at the first attempt within the budget whose answer is not NotReady, and reports that answer |
| Polling.AttemptFacts | main_adios.cpp:103-106 | One attempt is allowed by the protocol from between steps, begins a step only on OK, and issues only the BeginStep call and, after NotReady, the sleep |
| Polling.AttemptsFacts | main_adios.cpp:102-107 | A run of attempts whose earlier answers were NotReady is allowed by the protocol. It leaves the session where the last answer says |
| Polling.AttemptsOnlyPolls | main_adios.cpp:102-107 | Any run of attempts issues only BeginStep calls and sleeps |
| Polling.BeginWithRetry | main_adios.cpp:101-107 | The do-while loop returns the step's poll and the events of all its attempts, in order. It issues only BeginStep calls and sleeps |
| Engine.CountersCount | main_adios.cpp:49-148 | For both roles (the writer's loop at lines 49-58, the reader's at 99-148), the session counters equal the numbers of OK read polls plus update BeginSteps, of EndSteps, and of Puts plus Gets in the trace |
| Engine.StepsBalance | main_adios.cpp:103-132 | Along any allowed trace, steps begun and steps ended differ only by the step still open |
| Engine.Adjacency | main_adios.cpp:103-125 | Along any allowed trace, a Sleep follows a NotReady poll and nothing else, and every NotReady poll is followed by a Sleep. A Get directly follows an Inquire that resolved the variable. Every Get and Put moves exactly one block |
| Engine.ConformingSessionDiscipline | main_adios.cpp:49-148 | In a whole session of either role (writer lines 49-58, reader lines 99-148), EndStep occurs once per OK read poll or update BeginStep; NotReady polls and sleeps come in adjacent pairs; Get only follows a successful Inquire; Gets and Puts move one whole block |
| Writer.WriteStepFacts | main_adios.cpp:51-53 | One BeginStep/Put/EndStep triple begins one step, moves one block and ends the step |
| Writer.RepeatedStepsFacts | main_adios.cpp:49-55 | `n` triples begin and end `n` steps and move `n` blocks, returning the session to between steps |
| Writer.WriterSessionFacts | main_adios.cpp:40-58 | Open, `count` triples and Close form a conforming session with `count` steps begun and ended and `count` blocks moved |
| Writer.RunWriter | main_adios.cpp:49-58 | The loop exits with `i == count` and emits exactly `count` BeginStep/Put/EndStep triples, in order, between Open and Close. The session conforms, and every Put sends the pattern block |
| Reader.StepBodyFacts | main_adios.cpp:120-132 | After an OK poll, the inquiry, the Get (only if resolved) and EndStep end the step. A block is moved exactly when the variable resolved |
| Reader.PollEventsFacts | main_adios.cpp:101-107 | A step's poll is allowed from between steps and begins a step exactly when it ends in OK |
| Reader.StepEventsFacts | main_adios.cpp:101-132 | A step whose poll ends in OK begins and ends exactly one step and moves a block exactly when the variable resolved |
| Reader.StepReadsOnly | main_adios.cpp:101-132 | A step's poll and body issue no Put and no update-mode BeginStep |
| Reader.ReaderStepsFacts | main_adios.cpp:99-132 | Any number of completed steps, from between steps, is allowed by the protocol and begins and ends that many steps, fetching one block per resolved variable |
| Reader.ReaderStepsReadOnly | main_adios.cpp:99-132 | Completed steps issue no Put and no update-mode BeginStep |
| Reader.ReaderSessionFacts | main_adios.cpp:94-148 | Open, the completed steps, the failed poll when there is one, and Close form a conforming session with one step begun and ended per completed step and one block fetched per resolved variable |
| Reader.ReaderSessionReadsOnly | main_adios.cpp:94-148 | A whole reader session issues no Put and no update-mode BeginStep, so the blocks it moves are all Gets |
| Reader.ReadStep | main_adios.cpp:101-142 | One loop iteration returns the step's poll and emits the poll's events. Only after an OK poll does it also emit the inquiry, Get and EndStep; a failed poll changes no counter. A completed step is logged with its attempt count and inquiry result. Its mismatch is reported only when checking is on and the variable resolved, and is then the first bad offset. The iteration issues no Put and no update-mode BeginStep |
| Reader.RunReader | main_adios.cpp:94-148 | The loop completes at most `count` steps. It stops early exactly at the first step whose poll does not end in OK and reports that poll. Every completed step is logged as above. The trace is exactly Open, each completed step's poll events and body, the stopping step's poll events if the loop stopped early, and Close. It issues no Put and no update-mode BeginStep, and the session conforms with one step begun and ended per completed step and one block fetched per resolved variable |

## Left out

- ADIOS2 setup (`ADIOS`, `DeclareIO`, `SetEngine`, `SetParameters`, `DefineVariable`): library configuration; `Open` and `Close` appear only as trace events.
- The transport behind `Put` and `Get` and the deferred `Get`: the reader's buffer after a step is the input `fetch`, so nothing is claimed about what the transport delivers.
- MPI start-up and `atoi` argument parsing: process bootstrap and a C library call.
- Timers and throughput reporting: wall-clock time and floating point; the model has no clock.
  - The divide by a zero duration is not modelled.
  - Neither is the read of `t1` when the reader stops before any OK step.
- The length of the back-off sleep: only the occurrence of the sleep is modelled.
- Console messages (the early-stop notice, the failed-inquiry notice, the mismatch notice): the early stop and the mismatch are returned as values instead.
- Payload.FillPayload: entries are the integers before the `char` conversion. Both roles apply the same conversion to values in 0..254, so comparing the integers gives the same verdict as comparing the chars.
- Payload.FillPayload: `msz_size * msz_count` is an unbounded product; the `unsigned long` wrap-around of the benchmark's product is not modelled.
- Reader.RunReader: the reader's buffer is reused across steps. The model reads it only in a step whose variable resolved, where the C++ reader's check also runs, so earlier contents are never observed.
- Writer.RunWriter: every engine call is assumed to return normally. The program has no exception handling, so a `BeginStep`, `Put`, `EndStep` or `Close` that throws ends the writer partway through its loop without `Close`. The promises of exactly `count` triples and of a conforming session hold only for runs where no call throws.
- Writer.RunWriter: the `StepStatus` that the update-mode `BeginStep` returns is discarded by the program (main_adios.cpp:51). The model's `BeginUpdate` has no status and always opens a step.
- Reader.RunReader: every engine call is assumed to return normally. A `BeginStep`, `InquireVariable`, `SetSelection`, `Get`, `EndStep` or `Close` that throws ends the reader without `Close`. One example is a selection larger than the writer's block, when the two roles were started with different `msz_size`. The trace ending in `Close`, and the session conforming, hold only for runs where no call throws.
