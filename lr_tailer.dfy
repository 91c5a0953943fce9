/** com.keedio.tailer.LRTailer: tails one file, accumulating partial lines in
    a buffer that survives poll iterations, and catches up on the archived
    file after a rotation. The operating system is replaced by the Epoch and
    Poll inputs; every listener call is recorded in the ghost `trace`;
    sleeping is a no-op. */
module LRTailerEngine {
  import opened FileIo
  import opened Accumulation
  import opened LRTailerSpec

  class LRTailer {
    const listener: Listener
    /** The tailed file, by its absolute path. */
    const file: string

    var position: nat
    var lastFullLinePosition: nat
    var creationTime: int
    var run: bool

    /** The listener calls made so far, oldest first. */
    ghost var trace: seq<Event>

    function Config(): Setup
    {
      Setup(listener, file)
    }

    /** The constructor hands the tailer to listener.init. */
    constructor (listener: Listener, filename: string)
      ensures this.listener == listener && file == filename
      ensures position == 0 && lastFullLinePosition == 0 && creationTime == 0 && run
      ensures trace == [Init]
    {
      this.listener := listener;
      file := filename;
      position := 0;
      lastFullLinePosition := 0;
      creationTime := 0;
      run := true;
      trace := [Init];
    }

    /** Asks the loops to finish; they notice at their next test of `run`. */
    method Stop()
      modifies this`run
      ensures !run
    {
      run := false;
    }

    /** run(): `present` is file.exists() at start, `epochs` the world
        during the successive handleFile calls. */
    method Run(present: bool, epochs: seq<Epoch>) returns (ending: Ending)
      modifies this
      ensures var f := RunSpec(Config(), old(position), old(lastFullLinePosition), old(creationTime), old(run), present, epochs);
        ending == f.ending && position == f.position && lastFullLinePosition == f.lastFull &&
        creationTime == f.creationTime && run == f.run && trace == old(trace) + f.events
      // an absent file: notExists once, then a TailerException, and nothing read
      ensures !present ==> (ending == Thrown(FileNotFound) && trace == old(trace) + [NotExists] &&
        position == old(position) && lastFullLinePosition == old(lastFullLinePosition))
      // after stop() the loop ends and run() returns
      ensures !old(run) && present ==> ending == Returned && trace == old(trace)
    {
      if !present {
        trace := trace + [NotExists];
        return Thrown(FileNotFound);
      }
      ghost var setup := Config();
      ghost var start := RunLoop(setup, position, lastFullLinePosition, creationTime, run, epochs);
      ghost var done: seq<Event> := [];
      var i := 0;
      // `while (reopen && run)`: handleFile returns false only after clearing `run`
      while run
        invariant 0 <= i <= |epochs|
        invariant setup == Config()
        invariant trace == old(trace) + done
        invariant start == After(done, RunLoop(setup, position, lastFullLinePosition, creationTime, run, epochs[i..]))
        decreases |epochs| - i
      {
        if i == |epochs| {
          assert epochs[i..] == [];
          return Running;
        }
        var finished;
        finished, ending, done := RunOnce(epochs, i, setup, start, old(trace), done);
        if finished {
          return;
        }
        i := i + 1;
      }
      return Returned;
    }

    /** One pass of run()'s loop over `epochs[i]`, once `run` was found set.
        It keeps the loop's invariant: the outcome `start` of the whole loop
        is the callbacks `done` so far followed by the outcome of the loop
        over the epochs left; `finished` means run() ends with `ending`. */
    method RunOnce(epochs: seq<Epoch>, i: nat, ghost setup: Setup, ghost start: Finish, ghost t0: seq<Event>, ghost done: seq<Event>)
      returns (finished: bool, ending: Ending, ghost done': seq<Event>)
      requires i < |epochs| && run && setup == Config()
      requires trace == t0 + done
      requires start == After(done, RunLoop(setup, position, lastFullLinePosition, creationTime, true, epochs[i..]))
      modifies this
      ensures trace == t0 + done'
      ensures !finished ==> start == After(done', RunLoop(setup, position, lastFullLinePosition, creationTime, run, epochs[i + 1..]))
      ensures finished ==> start == Finish(ending, position, lastFullLinePosition, creationTime, run, done')
    {
      var e := epochs[i];
      assert epochs[i..][1..] == epochs[i + 1..];
      if e.stop {
        Stop();
        assert done + [] == done;
        return false, Returned, done;
      }
      ghost var r := HandleFileSpec(setup, position, lastFullLinePosition, e);
      var outcome := HandleFile(e);
      done' := done + r.events;
      match outcome {
        case Reopen =>
          AfterTwice(done, r.events, RunLoop(setup, position, lastFullLinePosition, creationTime, true, epochs[i + 1..]));
          return false, Returned, done';
        case Stopped =>
          assert done' + [] == done';
          return false, Returned, done';
        case Fatal(cause) =>
          return true, Thrown(cause), done';
        case Tailing =>
          return true, Running, done';
      }
    }

    /** handleFile: true asks run() to reopen the path after a rotation,
        false means `run` was cleared; an exception is reported to the
        listener and rethrown. */
    method HandleFile(e: Epoch) returns (outcome: Outcome)
      requires run
      modifies this
      ensures var r := HandleFileSpec(Config(), old(position), old(lastFullLinePosition), e);
        outcome == r.outcome && position == r.session.position && lastFullLinePosition == r.session.lastFull &&
        trace == old(trace) + r.events
      ensures creationTime == OpenedCreationTime(old(creationTime), e)
      ensures run == !outcome.Stopped?
    {
      if !e.opens {
        trace := trace + [HandleException(FileNotFound)];
        return Fatal(FileNotFound);
      }
      var firstReading := GetCreationTime(e.probe);
      if firstReading.Err? {
        trace := trace + [HandleException(firstReading.cause)];
        return Fatal(firstReading.cause);
      }
      creationTime := firstReading.value;
      outcome := PollLoop(e.polls);
    }

    /** handleFile's `while (run)` loop, entered with an empty buffer. */
    method PollLoop(polls: seq<Poll>) returns (outcome: Outcome)
      requires run
      modifies this`position, this`lastFullLinePosition, this`trace, this`run
      ensures var r := Tail(Config(), creationTime, Session(old(position), old(lastFullLinePosition), ""), polls);
        outcome == r.outcome && position == r.session.position && lastFullLinePosition == r.session.lastFull &&
        trace == old(trace) + r.events
      ensures run == !outcome.Stopped?
    {
      ghost var setup, ct := Config(), creationTime;
      var buffer := "";
      ghost var start := Tail(setup, ct, Session(position, lastFullLinePosition, ""), polls);
      ghost var done: seq<Event>, read: seq<string> := [], [];
      var i := 0;
      while i < |polls|
        invariant 0 <= i <= |polls| && run
        invariant setup == Config() && ct == creationTime
        invariant trace == old(trace) + done
        invariant start == Extend(done, read, Tail(setup, ct, Session(position, lastFullLinePosition, buffer), polls[i..]))
        decreases |polls| - i
      {
        outcome, buffer, done, read := Iteration(buffer, polls, i, setup, ct, start, old(trace), done, read);
        if outcome != Tailing {
          return;
        }
        i := i + 1;
      }
      assert polls[i..] == [];
      return Tailing;
    }

    /** One test of `run` and, when it holds, one pass of the loop body over
        `polls[i]`. It keeps the loop's invariant: the report `start` of the
        whole loop is the callbacks `done` and the chunks `read` so far,
        followed by the report of the loop over the polls left. Tailing
        means the loop goes round again. */
    method Iteration(buffer: string, polls: seq<Poll>, i: nat, ghost setup: Setup, ghost ct: int,
                     ghost start: Report, ghost t0: seq<Event>, ghost done: seq<Event>, ghost read: seq<string>)
      returns (outcome: Outcome, rest: string, ghost done': seq<Event>, ghost read': seq<string>)
      requires i < |polls| && run && setup == Config() && ct == creationTime
      requires trace == t0 + done
      requires start == Extend(done, read, Tail(setup, ct, Session(position, lastFullLinePosition, buffer), polls[i..]))
      modifies this`position, this`lastFullLinePosition, this`trace, this`run
      ensures trace == t0 + done'
      ensures run == !outcome.Stopped?
      ensures outcome == Tailing ==>
        start == Extend(done', read', Tail(setup, ct, Session(position, lastFullLinePosition, rest), polls[i + 1..]))
      ensures outcome != Tailing ==> start == Report(outcome, Session(position, lastFullLinePosition, rest), done', read')
    {
      var p := polls[i];
      assert polls[i..][1..] == polls[i + 1..];
      if p.stop {
        Stop();
        return Stopped, buffer, done, read;
      }
      ghost var st := PollStep(setup, ct, Session(position, lastFullLinePosition, buffer), p);
      RoundKeeps(setup, ct, Session(position, lastFullLinePosition, buffer), polls[i..], st, start, done, read);
      var verdict;
      verdict, rest := PollOnce(buffer, p, st);
      done', read' := done + st.events, read + st.consumed;
      match verdict {
        case Rotate =>
          outcome := Reopen;
        case Fail(cause) =>
          // the outer catch: report, then throw a TailerException
          trace := trace + [HandleException(cause)];
          done' := done' + [HandleException(cause)];
          outcome := Fatal(cause);
        case Next =>
          outcome := Tailing;
      }
    }

    /** The body of handleFile's `while (run)` loop, inside its inner
        try: the rotation check, then the inner readLine loop. A
        NoSuchFileException is caught here (sleep, go round again); any
        other exception escapes as Fail. */
    method PollOnce(buffer: string, p: Poll, ghost st: Step) returns (verdict: Verdict, rest: string)
      requires st == PollStep(Config(), creationTime, Session(position, lastFullLinePosition, buffer), p)
      modifies this`position, this`lastFullLinePosition, this`trace
      ensures verdict == st.verdict && position == st.session.position && lastFullLinePosition == st.session.lastFull &&
        rest == st.session.buffer && trace == old(trace) + st.events
    {
      var rotated := CheckRotateCondition(buffer, p);
      match rotated {
        case Err(cause) =>
          if cause == NoSuchFile {
            return Next, buffer;
          }
          return Fail(cause), buffer;
        case Ok(isRotated) =>
          if isRotated {
            return Rotate, buffer;
          }
          rest := ReadAvailable(buffer, p.chunks);
          verdict := if p.readFails then Fail(IoError) else Next;
      }
    }

    /** The inner readLine loop: each chunk is appended to the buffer and
        advances `position` by its length plus one; whenever isValid accepts
        the accumulation it is handed to the listener whole, and
        lastFullLinePosition catches up with `position`. */
    method ReadAvailable(buffer: string, chunks: seq<string>) returns (rest: string)
      modifies this`position, this`lastFullLinePosition, this`trace
      ensures var d := Drain(Config(), Session(old(position), old(lastFullLinePosition), buffer), chunks);
        position == d.session.position && lastFullLinePosition == d.session.lastFull &&
        rest == d.session.buffer && trace == old(trace) + d.events
    {
      ghost var setup, s0 := Config(), Session(position, lastFullLinePosition, buffer);
      rest := buffer;
      ghost var done: seq<Event> := [];
      var i := 0;
      while i < |chunks|
        invariant 0 <= i <= |chunks| && setup == Config()
        invariant Drain(setup, s0, chunks[..i]) == Drained(Session(position, lastFullLinePosition, rest), done)
        invariant trace == old(trace) + done
      {
        var currentLine := chunks[i];
        assert chunks[..i + 1][..i] == chunks[..i];
        rest := rest + currentLine;
        position := position + |currentLine| + 1;
        var accumulated := rest;
        if accumulated in listener.valid {
          trace := trace + [Handle(file, accumulated)];
          done := done + [Handle(file, accumulated)];
          lastFullLinePosition := position;
          rest := "";
        }
        i := i + 1;
      }
      assert chunks[..i] == chunks;
    }

    /** checkRotateCondition: a rotation is reported, caught up on and the
        position reset exactly when the file is shorter than what was read
        and was created later; otherwise nothing changes. */
    method CheckRotateCondition(prevBuffer: string, p: Poll) returns (rotated: Result<bool>)
      modifies this`position, this`trace
      ensures rotated == RotateCheck(creationTime, Session(old(position), lastFullLinePosition, prevBuffer), p)
      ensures rotated == Ok(true) ==> (position == 0 &&
        trace == old(trace) + [Rotated(lastFullLinePosition, old(position))] +
          CatchUp(Config(), RotatedName(listener, lastFullLinePosition, old(position)), p.archives,
                  Session(old(position), lastFullLinePosition, prevBuffer)))
      ensures rotated != Ok(true) ==> position == old(position) && trace == old(trace)
    {
      var newCreationTime := GetCreationTime(p.probe);
      if newCreationTime.Err? {
        return Err(newCreationTime.cause);
      }
      if RotationDetected(p.length, position, newCreationTime.value, creationTime) {
        trace := trace + [Rotated(lastFullLinePosition, position)];
        var rotatedFileName := RotatedName(listener, lastFullLinePosition, position);
        HandleRotatedFile(prevBuffer, rotatedFileName, p.archives);
        position := 0;
        return Ok(true);
      }
      return Ok(false);
    }

    /** handleRotatedFile: reads the archived file after
        max(lastFullLinePosition, position) characters, continuing the
        pending buffer, and hands the listener the chunk that completes each
        valid accumulation. It changes neither position. */
    method HandleRotatedFile(prevBuffer: string, rotatedFileName: Option<string>, archives: map<string, string>)
      modifies this`trace
      ensures trace == old(trace) + CatchUp(Config(), rotatedFileName, archives, Session(position, lastFullLinePosition, prevBuffer))
    {
      if rotatedFileName.None? {
        return;
      }
      var name := rotatedFileName.value;
      if name !in archives {
        return;
      }
      var rotatedPosition := Max(lastFullLinePosition, position);
      var chunks := Lines(Skip(archives[name], rotatedPosition));
      var buffer := prevBuffer;
      ghost var done: seq<Event> := [];
      var i := 0;
      while i < |chunks|
        invariant 0 <= i <= |chunks|
        invariant Reread(listener.valid, name, prevBuffer, chunks[..i]) == Pass(buffer, done)
        invariant trace == old(trace) + done
      {
        var currentLine := chunks[i];
        assert chunks[..i + 1][..i] == chunks[..i];
        buffer := buffer + currentLine;
        if buffer in listener.valid {
          trace := trace + [Handle(name, currentLine)];
          done := done + [Handle(name, currentLine)];
          buffer := "";
        }
        rotatedPosition := rotatedPosition + |currentLine|;  // counted, never read
        i := i + 1;
      }
      assert chunks[..i] == chunks;
    }

    /** getCreationTime: up to three readings; the first that is not Missing
        decides, and the third Missing in a row is rethrown. */
    method GetCreationTime(readings: Readings) returns (r: Result<int>)
      ensures r == CreationTime(readings)
    {
      var retries := 0;
      while retries < Attempts
        invariant 0 <= retries < Attempts
        invariant CreationTime(readings) == Attempt(readings, retries)
        decreases Attempts - retries
      {
        match readings[retries] {
          case Created(t) => return Ok(t);
          case Unreadable => return Err(IoError);
          case Missing =>
            retries := retries + 1;
            if retries == Attempts {
              return Err(NoSuchFile);
            }
        }
      }
      assert false;  // the final `return 0L` cannot be reached
      r := Ok(0);
    }
  }
}
