/** What com.keedio.tailer.LRTailer does, as functions of its inputs: the
    retrying creation-time probe, the conjunctive rotation test, the inner
    readLine loop with a buffer that survives poll iterations, the catch-up
    pass over the archived file, one poll iteration, one handleFile call and
    the whole run. The class in lr_tailer.dfy is proved against these. */
module LRTailerSpec {
  import opened FileIo
  import opened Accumulation

  /** A call LRTailer makes on its listener. */
  datatype Event =
    | Init                                          // init(tailer), from the constructor
    | NotExists
    | Rotated(lastPosition: nat, currPosition: nat)
    | Handle(filename: string, line: string)
    | HandleException(cause: Failure)

  predicate IsRotated(e: Event) { e.Rotated? }
  predicate IsHandleException(e: Event) { e.HandleException? }

  /** The listener's answers that steer the engine: the texts isValid
      accepts, and the name of the archived file `rotated` returns for each
      pair of positions (null where the map has no entry). */
  datatype Listener = Listener(valid: iset<string>, rotated: imap<(nat, nat), string>)

  /** What listener.rotated(lastPosition, currPosition) returns. */
  function RotatedName(listener: Listener, lastPosition: nat, currPosition: nat): Option<string>
  {
    if (lastPosition, currPosition) in listener.rotated then Some(listener.rotated[(lastPosition, currPosition)]) else None
  }

  /** What the engine is built with: the listener and the tailed path. */
  datatype Setup = Setup(listener: Listener, path: string)

  /** getCreationTime tries Files.readAttributes at most this often. */
  const Attempts: nat := 3

  /** The readings getCreationTime would see on its successive attempts. */
  type Readings = s: seq<Attr> | |s| == Attempts witness [Missing, Missing, Missing]

  /** The world during one iteration of handleFile's `while (run)` loop. */
  datatype Poll = Poll(
    stop: bool,                     // stop() was called since the loop last read `run`
    probe: Readings,                // what checkRotateCondition's getCreationTime reads
    length: nat,                    // file.length() of the tailed path
    archives: map<string, string>,  // other files that exist, by name, with their content
    chunks: seq<string>,            // what readLine returns before it returns null
    readFails: bool)                // readLine then throws an IOException instead

  /** The world during one call of handleFile. */
  datatype Epoch = Epoch(
    stop: bool,                     // stop() was called before run() tests `run` for this call
    opens: bool,                    // new FileReader(file) succeeds
    probe: Readings,                // what the getCreationTime at open reads
    polls: seq<Poll>)

  predicate AllMissing(readings: Readings, from: nat, to: nat)
    requires to <= Attempts
  {
    forall j :: from <= j < to ==> readings[j] == Missing
  }

  /** getCreationTime from attempt `retries` on: the first reading that is
      not Missing decides, and a third Missing in a row rethrows
      NoSuchFileException. */
  function Attempt(readings: Readings, retries: nat): Result<int>
    requires retries < Attempts
    decreases Attempts - retries
  {
    match readings[retries]
    case Created(t) => Ok(t)
    case Unreadable => Err(IoError)
    case Missing => if retries + 1 == Attempts then Err(NoSuchFile) else Attempt(readings, retries + 1)
  }

  /** The creation time is the first reading that is not Missing when it is
      Created; the attempt fails with an IOException when that reading is
      Unreadable, and with NoSuchFileException exactly when every reading
      from here on is Missing. */
  lemma {:induction false} AttemptOutcome(readings: Readings, retries: nat)
    requires retries < Attempts
    ensures var r := Attempt(readings, retries);
      (r.Ok? ==> exists k :: retries <= k < Attempts && readings[k] == Created(r.value) && AllMissing(readings, retries, k)) &&
      (r == Err(NoSuchFile) <==> AllMissing(readings, retries, Attempts)) &&
      (r == Err(IoError) <==> exists k :: retries <= k < Attempts && readings[k] == Unreadable && AllMissing(readings, retries, k)) &&
      (r.Err? ==> r.cause == NoSuchFile || r.cause == IoError)
    decreases Attempts - retries
  {
    if readings[retries].Missing? && retries + 1 < Attempts {
      AttemptOutcome(readings, retries + 1);
    }
  }

  function CreationTime(readings: Readings): Result<int>
  {
    Attempt(readings, 0)
  }

  /** checkRotateCondition's test: the file is shorter than what was read AND it was created later. */
  predicate RotationDetected(length: nat, position: nat, newCreationTime: int, creationTime: int)
  {
    length + 1 < position && newCreationTime > creationTime
  }

  /** position, lastFullLinePosition and the pending buffer of handleFile. */
  datatype Session = Session(position: nat, lastFull: nat, buffer: string)

  /** The main loop hands the listener the whole accumulation, against the tailed path. */
  function Deliveries(path: string, cuts: seq<Cut>): seq<Event>
  {
    seq(|cuts|, i requires 0 <= i < |cuts| => Handle(path, cuts[i].accumulated))
  }

  /** The catch-up hands the listener only the chunk that completed each record. */
  function CatchUpDeliveries(name: string, cuts: seq<Cut>): seq<Event>
  {
    seq(|cuts|, i requires 0 <= i < |cuts| => Handle(name, cuts[i].last))
  }

  datatype Drained = Drained(session: Session, events: seq<Event>)

  /** The inner `while ((currentLine = reader.readLine()) != null)` loop of
      handleFile, chunk by chunk: append, advance `position` by the chunk
      and its terminator, and deliver the whole accumulation when isValid
      accepts it, moving lastFullLinePosition up to `position`. */
  function Drain(setup: Setup, s: Session, chunks: seq<string>): Drained
    decreases |chunks|
  {
    if chunks == [] then Drained(s, [])
    else
      var d := Drain(setup, s, chunks[..|chunks| - 1]);
      var line := chunks[|chunks| - 1];
      var acc := d.session.buffer + line;
      var position := d.session.position + |line| + 1;
      if acc in setup.listener.valid then Drained(Session(position, position, ""), d.events + [Handle(setup.path, acc)])
      else Drained(Session(position, d.session.lastFull, acc), d.events)
  }

  /** The pending buffer and the callbacks of handleRotatedFile's loop. */
  datatype Pass = Pass(buffer: string, events: seq<Event>)

  /** handleRotatedFile's `while ((currentLine = reader.readLine()) != null)`
      loop over the archived file `name`: the same accumulation, but only
      the completing chunk is delivered. */
  function Reread(valid: iset<string>, name: string, seed: string, chunks: seq<string>): Pass
    decreases |chunks|
  {
    if chunks == [] then Pass(seed, [])
    else
      var r := Reread(valid, name, seed, chunks[..|chunks| - 1]);
      var line := chunks[|chunks| - 1];
      var acc := r.buffer + line;
      if acc in valid then Pass("", r.events + [Handle(name, line)]) else Pass(acc, r.events)
  }

  /** The chunks the catch-up reads from the archived file `name`. */
  function ArchivedChunks(content: string, s: Session): seq<string>
  {
    Lines(Skip(content, Max(s.lastFull, s.position)))
  }

  /** handleRotatedFile: nothing without a name or an existing file; otherwise
      the buffer loop over the archived file after max(lastFull, position)
      characters, seeded with the pending buffer. */
  function CatchUp(setup: Setup, rotatedFileName: Option<string>, archives: map<string, string>, s: Session): seq<Event>
  {
    if rotatedFileName.None? || rotatedFileName.value !in archives then []
    else Reread(setup.listener.valid, rotatedFileName.value, s.buffer, ArchivedChunks(archives[rotatedFileName.value], s)).events
  }

  /** How an iteration of `while (run)` ends: go round again, return true, or throw. */
  datatype Verdict = Next | Rotate | Fail(cause: Failure)

  datatype Step = Step(verdict: Verdict, session: Session, events: seq<Event>, consumed: seq<string>)

  /** checkRotateCondition's answer before it acts on it: the exception
      getCreationTime throws, or whether the file rotated. */
  function RotateCheck(creationTime: int, s: Session, p: Poll): Result<bool>
  {
    match CreationTime(p.probe)
    case Err(cause) => Err(cause)
    case Ok(t) => Ok(RotationDetected(p.length, s.position, t, creationTime))
  }

  /** One iteration of handleFile's `while (run)` body, given that `run` held. */
  function PollStep(setup: Setup, creationTime: int, s: Session, p: Poll): Step
  {
    match RotateCheck(creationTime, s, p)
    case Err(cause) =>
      if cause == NoSuchFile then Step(Next, s, [], [])   // caught inside the loop: sleep, poll again
      else Step(Fail(cause), s, [], [])
    case Ok(rotated) =>
      if rotated then
        var name := RotatedName(setup.listener, s.lastFull, s.position);
        Step(Rotate, s.(position := 0), [Rotated(s.lastFull, s.position)] + CatchUp(setup, name, p.archives, s), [])
      else
        var d := Drain(setup, s, p.chunks);
        Step(if p.readFails then Fail(IoError) else Next, d.session, d.events, p.chunks)
  }

  /** How handleFile ends: true, false, a TailerException, or the inputs
      ended while it was still polling. */
  datatype Outcome = Reopen | Stopped | Fatal(cause: Failure) | Tailing

  /** An outcome with the session it leaves, the callbacks made and every
      chunk read from the tailed file, in order. */
  datatype Report = Report(outcome: Outcome, session: Session, events: seq<Event>, consumed: seq<string>)

  function Extend(events: seq<Event>, consumed: seq<string>, r: Report): Report
  {
    r.(events := events + r.events, consumed := consumed + r.consumed)
  }

  lemma ExtendTwice(events: seq<Event>, consumed: seq<string>, more: seq<Event>, read: seq<string>, r: Report)
    ensures Extend(events, consumed, Extend(more, read, r)) == Extend(events + more, consumed + read, r)
  {
    assert events + (more + r.events) == (events + more) + r.events;
    assert consumed + (read + r.consumed) == (consumed + read) + r.consumed;
  }

  /** handleFile's `while (run)` loop over the polls. */
  function Tail(setup: Setup, creationTime: int, s: Session, polls: seq<Poll>): Report
    decreases |polls|, 1
  {
    if polls == [] then Report(Tailing, s, [], [])
    else if polls[0].stop then Report(Stopped, s, [], [])
    else Round(setup, creationTime, s, polls)
  }

  /** The loop once `run` was found set: the body over the first poll, then
      the loop again unless the body returned or threw. */
  function Round(setup: Setup, creationTime: int, s: Session, polls: seq<Poll>): Report
    requires polls != []
    decreases |polls|, 0
  {
    var st := PollStep(setup, creationTime, s, polls[0]);
    match st.verdict
    case Rotate => Report(Reopen, st.session, st.events, st.consumed)
    case Fail(cause) => Report(Fatal(cause), st.session, st.events + [HandleException(cause)], st.consumed)
    case Next => Extend(st.events, st.consumed, Tail(setup, creationTime, st.session, polls[1..]))
  }

  /** What one pass of the loop body over the first of `polls` does to the
      invariant of handleFile's loop: `whole`, the report of the loop, is
      the callbacks `done` and the chunks `read` so far followed by the
      report of the loop over `polls`. */
  lemma RoundKeeps(setup: Setup, creationTime: int, s: Session, polls: seq<Poll>, st: Step,
                   whole: Report, done: seq<Event>, read: seq<string>)
    requires polls != [] && !polls[0].stop && st == PollStep(setup, creationTime, s, polls[0])
    requires whole == Extend(done, read, Tail(setup, creationTime, s, polls))
    ensures st.verdict == Next ==>
      whole == Extend(done + st.events, read + st.consumed, Tail(setup, creationTime, st.session, polls[1..]))
    ensures st.verdict == Rotate ==> whole == Report(Reopen, st.session, done + st.events, read + st.consumed)
    ensures st.verdict.Fail? ==>
      whole == Report(Fatal(st.verdict.cause), st.session, done + st.events + [HandleException(st.verdict.cause)], read + st.consumed)
  {
    if st.verdict == Next {
      ExtendTwice(done, read, st.events, st.consumed, Tail(setup, creationTime, st.session, polls[1..]));
    } else if st.verdict.Fail? {
      assert done + (st.events + [HandleException(st.verdict.cause)]) == done + st.events + [HandleException(st.verdict.cause)];
    }
  }

  /** handleFile: open, read the creation time, start with an empty buffer and poll. */
  function HandleFileSpec(setup: Setup, position: nat, lastFull: nat, e: Epoch): Report
  {
    var s := Session(position, lastFull, "");
    if !e.opens then Report(Fatal(FileNotFound), s, [HandleException(FileNotFound)], [])
    else
      match CreationTime(e.probe)
      case Err(cause) => Report(Fatal(cause), s, [HandleException(cause)], [])
      case Ok(t) => Tail(setup, t, s, e.polls)
  }

  /** creationTime after handleFile: what it read at open, if it got that far. */
  function OpenedCreationTime(creationTime: int, e: Epoch): int
  {
    if e.opens && CreationTime(e.probe).Ok? then CreationTime(e.probe).value else creationTime
  }

  /** How run() ends: it returns, it throws a TailerException, or the inputs
      ended while it was still tailing. */
  datatype Ending = Returned | Thrown(cause: Failure) | Running

  datatype Finish = Finish(ending: Ending, position: nat, lastFull: nat, creationTime: int, run: bool, events: seq<Event>)

  /** `f` preceded by the callbacks `events`. */
  function After(events: seq<Event>, f: Finish): Finish
  {
    f.(events := events + f.events)
  }

  lemma AfterTwice(events: seq<Event>, more: seq<Event>, f: Finish)
    ensures After(events, After(more, f)) == After(events + more, f)
  {
    assert events + (more + f.events) == (events + more) + f.events;
  }

  /** run()'s `while (reopen && run)` loop over successive handleFile calls. */
  function RunLoop(setup: Setup, position: nat, lastFull: nat, creationTime: int, run: bool, epochs: seq<Epoch>): Finish
    decreases |epochs|, 1
  {
    if !run then Finish(Returned, position, lastFull, creationTime, false, [])
    else if epochs == [] then Finish(Running, position, lastFull, creationTime, true, [])
    else if epochs[0].stop then Finish(Returned, position, lastFull, creationTime, false, [])
    else Reopened(setup, position, lastFull, creationTime, epochs)
  }

  /** The loop once `run` was found set: one handleFile call, then the loop
      again if it asked for the path to be reopened. */
  function Reopened(setup: Setup, position: nat, lastFull: nat, creationTime: int, epochs: seq<Epoch>): Finish
    requires epochs != []
    decreases |epochs|, 0
  {
    var r := HandleFileSpec(setup, position, lastFull, epochs[0]);
    var ct := OpenedCreationTime(creationTime, epochs[0]);
    match r.outcome
    case Reopen => After(r.events, RunLoop(setup, r.session.position, r.session.lastFull, ct, true, epochs[1..]))
    case Stopped => Finish(Returned, r.session.position, r.session.lastFull, ct, false, r.events)
    case Fatal(cause) => Finish(Thrown(cause), r.session.position, r.session.lastFull, ct, true, r.events)
    case Tailing => Finish(Running, r.session.position, r.session.lastFull, ct, true, r.events)
  }

  /** run(): an absent file is reported once and ends the run before any read. */
  function RunSpec(setup: Setup, position: nat, lastFull: nat, creationTime: int, run: bool, present: bool, epochs: seq<Epoch>): Finish
  {
    if !present then Finish(Thrown(FileNotFound), position, lastFull, creationTime, run, [NotExists])
    else RunLoop(setup, position, lastFull, creationTime, run, epochs)
  }
}
