/** What com.keedio.Tailer, the older engine, does, as functions of its
    inputs: a single creation-time read, the disjunctive rotation test, a
    readLine loop whose buffer is new on every poll and which hands the
    listener only the completing chunk, a catch-up over the archived file
    from lastFullLinePosition with an empty buffer, one poll iteration, one
    handleFile call and the whole run. The class in tailer.dfy is proved
    against these. */
module TailerSpec {
  import opened FileIo

  /** A call Tailer makes on its listener. */
  datatype Event =
    | NotExists
    | Rotated(lastPosition: nat)
    | Handle(line: string)
    | HandleException(cause: Failure)

  predicate IsRotated(e: Event) { e.Rotated? }
  predicate IsHandleException(e: Event) { e.HandleException? }

  /** The listener's answers that steer the engine: the texts isValid
      accepts, and the name `rotated` returns for each lastPosition (null
      where the map has no entry). */
  datatype Listener = Listener(valid: iset<string>, rotated: imap<nat, string>)

  /** What listener.rotated(lastPosition) returns. */
  function RotatedName(listener: Listener, lastPosition: nat): Option<string>
  {
    if lastPosition in listener.rotated then Some(listener.rotated[lastPosition]) else None
  }

  /** The world during one iteration of handleFile's `while (true)` loop. */
  datatype Poll = Poll(
    probe: Attr,                    // what getCreationTime reads
    length: nat,                    // file.length() of the tailed path
    archives: map<string, string>,  // other files that exist, by name, with their content
    chunks: seq<string>,            // what readLine returns before it returns null
    readFails: bool)                // readLine then throws an IOException instead

  /** The world during one call of handleFile. */
  datatype Epoch = Epoch(
    opens: bool,                    // new FileReader(file) succeeds
    probe: Attr,                    // what the getCreationTime at open reads
    polls: seq<Poll>)

  /** getCreationTime: one Files.readAttributes, whose exception propagates. */
  function ReadCreationTime(a: Attr): Result<int>
  {
    match a
    case Created(t) => Ok(t)
    case Missing => Err(NoSuchFile)
    case Unreadable => Err(IoError)
  }

  /** The rotation test: the file is shorter than what was read OR it was created later. */
  predicate RotationDetected(length: nat, position: nat, newCreationTime: int, creationTime: int)
  {
    length + 1 < position || newCreationTime > creationTime
  }

  /** position and lastFullLinePosition. */
  datatype Session = Session(position: nat, lastFull: nat)

  /** The readLine loop's effect: the positions, the buffer it leaves and the callbacks. */
  datatype Drained = Drained(session: Session, buffer: string, events: seq<Event>)

  /** The inner readLine loop of one poll, over a buffer created empty for
      this poll: append, advance `position` by the chunk and its terminator,
      and when isValid accepts the accumulation hand the listener the chunk
      just read, move lastFullLinePosition up and empty the buffer. */
  function Drain(valid: iset<string>, s: Session, chunks: seq<string>): Drained
    decreases |chunks|
  {
    if chunks == [] then Drained(s, "", [])
    else
      var d := Drain(valid, s, chunks[..|chunks| - 1]);
      var line := chunks[|chunks| - 1];
      var acc := d.buffer + line;
      var position := d.session.position + |line| + 1;
      if acc in valid then Drained(Session(position, position), "", d.events + [Handle(line)])
      else Drained(Session(position, d.session.lastFull), acc, d.events)
  }

  /** The pending buffer and the callbacks of handleRotatedFile's loop. */
  datatype Pass = Pass(buffer: string, events: seq<Event>)

  /** handleRotatedFile's readLine loop over the archived file, from an
      empty buffer: the completing chunk of each accepted accumulation is
      handed to the listener. */
  function Reread(valid: iset<string>, chunks: seq<string>): Pass
    decreases |chunks|
  {
    if chunks == [] then Pass("", [])
    else
      var r := Reread(valid, chunks[..|chunks| - 1]);
      var line := chunks[|chunks| - 1];
      var acc := r.buffer + line;
      if acc in valid then Pass("", r.events + [Handle(line)]) else Pass(acc, r.events)
  }

  /** The chunks the catch-up reads: the archived file after lastFullLinePosition characters. */
  function ArchivedChunks(content: string, lastFull: nat): seq<string>
  {
    Lines(Skip(content, lastFull))
  }

  /** handleRotatedFile: nothing without a name or an existing file. */
  function CatchUp(listener: Listener, rotatedFileName: Option<string>, archives: map<string, string>, lastFull: nat): seq<Event>
  {
    if rotatedFileName.None? || rotatedFileName.value !in archives then []
    else Reread(listener.valid, ArchivedChunks(archives[rotatedFileName.value], lastFull)).events
  }

  /** How an iteration of `while (true)` ends: go round again, return true
      after a rotation, return true because the file vanished
      (NoSuchFileException), or throw. */
  datatype Verdict = Next | Rotate | Vanished | Fail(cause: Failure)

  datatype Step = Step(verdict: Verdict, session: Session, events: seq<Event>, consumed: seq<string>)

  /** One iteration of handleFile's `while (true)` body. The buffer the
      readLine loop leaves is dropped with the iteration. */
  function PollStep(listener: Listener, creationTime: int, s: Session, p: Poll): Step
  {
    match ReadCreationTime(p.probe)
    case Err(cause) =>
      if cause == NoSuchFile then Step(Vanished, s, [], []) else Step(Fail(cause), s, [], [])
    case Ok(t) =>
      if RotationDetected(p.length, s.position, t, creationTime) then
        var name := RotatedName(listener, s.lastFull);
        Step(Rotate, s.(position := 0), [Rotated(s.lastFull)] + CatchUp(listener, name, p.archives, s.lastFull), [])
      else
        var d := Drain(listener.valid, s, p.chunks);
        Step(if p.readFails then Fail(IoError) else Next, d.session, d.events, p.chunks)
  }

  /** How handleFile ends: true, a TailerException, or the inputs ended
      while it was still polling. */
  datatype Outcome = Reopen | Fatal(cause: Failure) | Tailing

  /** An outcome with the positions it leaves, the callbacks made and every
      chunk read from the tailed file, in order. */
  datatype Report = Report(outcome: Outcome, session: Session, events: seq<Event>, consumed: seq<string>)

  function Extend(events: seq<Event>, consumed: seq<string>, r: Report): Report
  {
    r.(events := events + r.events, consumed := consumed + r.consumed)
  }

  lemma ExtendTwice(events: seq<Event>, consumed: seq<string>, more: seq<Event>, read: seq<string>, r: Report)
    ensures Extend(events, consumed, Extend(more, read, r)) == Extend(events + more, consumed + read, r)
  {
    assert events + (more + r.events) == (events + more) + r.events;
    assert consumed + (read + r.consumed) == (consumed + read) + r.consumed;
  }

  /** handleFile's `while (true)` loop over the polls. */
  function Tail(listener: Listener, creationTime: int, s: Session, polls: seq<Poll>): Report
    decreases |polls|, 1
  {
    if polls == [] then Report(Tailing, s, [], []) else Round(listener, creationTime, s, polls)
  }

  /** The body over the first poll, then the loop again unless the body
      returned or threw. */
  function Round(listener: Listener, creationTime: int, s: Session, polls: seq<Poll>): Report
    requires polls != []
    decreases |polls|, 0
  {
    var st := PollStep(listener, creationTime, s, polls[0]);
    match st.verdict
    case Rotate => Report(Reopen, st.session, st.events, st.consumed)
    case Vanished => Report(Reopen, st.session, st.events, st.consumed)
    case Fail(cause) => Report(Fatal(cause), st.session, st.events + [HandleException(cause)], st.consumed)
    case Next => Extend(st.events, st.consumed, Tail(listener, creationTime, st.session, polls[1..]))
  }

  /** What one pass of the loop body over the first of `polls` does to the
      invariant of handleFile's loop. */
  lemma RoundKeeps(listener: Listener, creationTime: int, s: Session, polls: seq<Poll>, st: Step,
                   whole: Report, done: seq<Event>, read: seq<string>)
    requires polls != [] && st == PollStep(listener, creationTime, s, polls[0])
    requires whole == Extend(done, read, Tail(listener, creationTime, s, polls))
    ensures st.verdict == Next ==>
      whole == Extend(done + st.events, read + st.consumed, Tail(listener, creationTime, st.session, polls[1..]))
    ensures st.verdict == Rotate || st.verdict == Vanished ==>
      whole == Report(Reopen, st.session, done + st.events, read + st.consumed)
    ensures st.verdict.Fail? ==>
      whole == Report(Fatal(st.verdict.cause), st.session, done + st.events + [HandleException(st.verdict.cause)], read + st.consumed)
  {
    if st.verdict == Next {
      ExtendTwice(done, read, st.events, st.consumed, Tail(listener, creationTime, st.session, polls[1..]));
    } else if st.verdict.Fail? {
      assert done + (st.events + [HandleException(st.verdict.cause)]) == done + st.events + [HandleException(st.verdict.cause)];
    }
  }

  /** handleFile: open, read the creation time, poll. A NoSuchFileException
      anywhere makes it return true without a callback; any other
      exception is reported and rethrown. */
  function HandleFileSpec(listener: Listener, s: Session, e: Epoch): Report
  {
    if !e.opens then Report(Fatal(FileNotFound), s, [HandleException(FileNotFound)], [])
    else
      match ReadCreationTime(e.probe)
      case Err(cause) =>
        if cause == NoSuchFile then Report(Reopen, s, [], [])
        else Report(Fatal(cause), s, [HandleException(cause)], [])
      case Ok(t) => Tail(listener, t, s, e.polls)
  }

  /** creationTime after handleFile: what it read at open, if it got that far. */
  function OpenedCreationTime(creationTime: int, e: Epoch): int
  {
    if e.opens && ReadCreationTime(e.probe).Ok? then ReadCreationTime(e.probe).value else creationTime
  }

  /** How run() ends: it returns, it throws a TailerException, or the inputs
      ended while it was still tailing. */
  datatype Ending = Returned | Thrown(cause: Failure) | Running

  datatype Finish = Finish(ending: Ending, session: Session, creationTime: int, events: seq<Event>)

  function After(events: seq<Event>, f: Finish): Finish
  {
    f.(events := events + f.events)
  }

  lemma AfterTwice(events: seq<Event>, more: seq<Event>, f: Finish)
    ensures After(events, After(more, f)) == After(events + more, f)
  {
    assert events + (more + f.events) == (events + more) + f.events;
  }

  /** run()'s `while (reopen)` loop over successive handleFile calls. */
  function RunLoop(listener: Listener, s: Session, creationTime: int, epochs: seq<Epoch>): Finish
    decreases |epochs|, 1
  {
    if epochs == [] then Finish(Running, s, creationTime, []) else Reopened(listener, s, creationTime, epochs)
  }

  /** One handleFile call, then the loop again if it returned true. */
  function Reopened(listener: Listener, s: Session, creationTime: int, epochs: seq<Epoch>): Finish
    requires epochs != []
    decreases |epochs|, 0
  {
    var r := HandleFileSpec(listener, s, epochs[0]);
    var ct := OpenedCreationTime(creationTime, epochs[0]);
    match r.outcome
    case Reopen => After(r.events, RunLoop(listener, r.session, ct, epochs[1..]))
    case Fatal(cause) => Finish(Thrown(cause), r.session, ct, r.events)
    case Tailing => Finish(Running, r.session, ct, r.events)
  }

  /** run(): a null listener is refused before anything else, and an absent
      file is reported once and ends the run before any read. */
  function RunSpec(listener: Option<Listener>, s: Session, creationTime: int, present: bool, epochs: seq<Epoch>): Finish
  {
    if listener.None? then Finish(Thrown(IllegalState), s, creationTime, [])
    else if !present then Finish(Thrown(FileNotFound), s, creationTime, [NotExists])
    else RunLoop(listener.value, s, creationTime, epochs)
  }
}
