/** com.keedio.Tailer, the older engine: no stop(), a buffer that lives for
    one poll iteration, and a catch-up that starts from lastFullLinePosition
    with an empty buffer. The operating system is replaced by the Epoch and
    Poll inputs; every listener call is recorded in the ghost `trace`;
    sleeping is a no-op. */
module TailerEngine {
  import opened FileIo
  import opened TailerSpec

  class Tailer {
    /** The listener, null when the Option is None. */
    const listener: Option<Listener>
    const filename: string

    var position: nat
    var lastFullLinePosition: nat
    var creationTime: int

    /** The listener calls made so far, oldest first. */
    ghost var trace: seq<Event>

    function Positions(): Session
      reads this
    {
      Session(position, lastFullLinePosition)
    }

    /** The constructor stores its arguments and calls nothing. */
    constructor (listener: Option<Listener>, filename: string)
      ensures this.listener == listener && this.filename == filename
      ensures position == 0 && lastFullLinePosition == 0 && creationTime == 0
      ensures trace == []
    {
      this.listener := listener;
      this.filename := filename;
      position := 0;
      lastFullLinePosition := 0;
      creationTime := 0;
      trace := [];
    }

    /** run(): `present` is file.exists() at start, `epochs` the world
        during the successive handleFile calls. */
    method Run(present: bool, epochs: seq<Epoch>) returns (ending: Ending)
      modifies this
      ensures var f := RunSpec(listener, old(Positions()), old(creationTime), present, epochs);
        ending == f.ending && Positions() == f.session && creationTime == f.creationTime &&
        trace == old(trace) + f.events
      // a null listener: IllegalStateException before anything else
      ensures listener.None? ==> ending == Thrown(IllegalState) && trace == old(trace)
      // an absent file: notExists once, then FileNotFoundException, and nothing read
      ensures listener.Some? && !present ==>
        ending == Thrown(FileNotFound) && trace == old(trace) + [NotExists] && Positions() == old(Positions())
    {
      if listener.None? {
        return Thrown(IllegalState);
      }
      if !present {
        trace := trace + [NotExists];
        return Thrown(FileNotFound);
      }
      ghost var start := RunLoop(listener.value, Positions(), creationTime, epochs);
      ghost var done: seq<Event> := [];
      var reopen := true;
      var i := 0;
      while reopen
        invariant reopen && 0 <= i <= |epochs|
        invariant trace == old(trace) + done
        invariant start == After(done, RunLoop(listener.value, Positions(), creationTime, epochs[i..]))
        decreases |epochs| - i
      {
        if i == |epochs| {
          return Running;
        }
        assert epochs[i..][1..] == epochs[i + 1..];
        ghost var r := HandleFileSpec(listener.value, Positions(), epochs[i]);
        var outcome := HandleFile(epochs[i]);
        AfterTwice(done, r.events, RunLoop(listener.value, Positions(), creationTime, epochs[i + 1..]));
        done := done + r.events;
        match outcome {
          case Fatal(cause) =>
            return Thrown(cause);
          case Tailing =>
            return Running;
          case Reopen =>
            reopen := true;
        }
        i := i + 1;
      }
      // handleFile returns true or throws, so the loop never ends normally
      assert false;
      return Returned;
    }

    /** handleFile: true asks run() to reopen the path, after a rotation or
        because the file vanished; any other exception is reported to the
        listener and rethrown. */
    method HandleFile(e: Epoch) returns (outcome: Outcome)
      requires listener.Some?
      modifies this
      ensures var r := HandleFileSpec(listener.value, old(Positions()), e);
        outcome == r.outcome && Positions() == r.session && trace == old(trace) + r.events
      ensures creationTime == OpenedCreationTime(old(creationTime), e)
    {
      if !e.opens {
        trace := trace + [HandleException(FileNotFound)];
        return Fatal(FileNotFound);
      }
      var firstReading := GetCreationTime(e.probe);
      if firstReading.Err? {
        if firstReading.cause == NoSuchFile {
          return Reopen;
        }
        trace := trace + [HandleException(firstReading.cause)];
        return Fatal(firstReading.cause);
      }
      creationTime := firstReading.value;
      outcome := PollLoop(e.polls);
    }

    /** handleFile's `while (true)` loop. */
    method PollLoop(polls: seq<Poll>) returns (outcome: Outcome)
      requires listener.Some?
      modifies this`position, this`lastFullLinePosition, this`trace
      ensures var r := Tail(listener.value, creationTime, old(Positions()), polls);
        outcome == r.outcome && Positions() == r.session && trace == old(trace) + r.events
    {
      ghost var l, ct := listener.value, creationTime;
      ghost var start := Tail(l, ct, Positions(), polls);
      ghost var done: seq<Event>, read: seq<string> := [], [];
      var i := 0;
      while i < |polls|
        invariant 0 <= i <= |polls|
        invariant l == listener.value && ct == creationTime
        invariant trace == old(trace) + done
        invariant start == Extend(done, read, Tail(l, ct, Positions(), polls[i..]))
        decreases |polls| - i
      {
        outcome, done, read := Iteration(polls, i, l, ct, start, old(trace), done, read);
        if outcome != Tailing {
          return;
        }
        i := i + 1;
      }
      assert polls[i..] == [];
      return Tailing;
    }

    /** One pass of the loop body over `polls[i]`, keeping the loop's
        invariant: the report `start` of the whole loop is the callbacks
        `done` and the chunks `read` so far, followed by the report of the
        loop over the polls left. Tailing means the loop goes round again. */
    method Iteration(polls: seq<Poll>, i: nat, ghost l: Listener, ghost ct: int,
                     ghost start: Report, ghost t0: seq<Event>, ghost done: seq<Event>, ghost read: seq<string>)
      returns (outcome: Outcome, ghost done': seq<Event>, ghost read': seq<string>)
      requires i < |polls| && listener == Some(l) && ct == creationTime
      requires trace == t0 + done
      requires start == Extend(done, read, Tail(l, ct, Positions(), polls[i..]))
      modifies this`position, this`lastFullLinePosition, this`trace
      ensures trace == t0 + done'
      ensures outcome == Tailing ==> start == Extend(done', read', Tail(l, ct, Positions(), polls[i + 1..]))
      ensures outcome != Tailing ==> start == Report(outcome, Positions(), done', read')
    {
      var p := polls[i];
      assert polls[i..][1..] == polls[i + 1..];
      ghost var st := PollStep(l, ct, Positions(), p);
      RoundKeeps(l, ct, Positions(), polls[i..], st, start, done, read);
      var verdict := PollOnce(p, st);
      done', read' := done + st.events, read + st.consumed;
      match verdict {
        case Rotate =>
          outcome := Reopen;
        case Vanished =>
          // catch (NoSuchFileException e): return true
          outcome := Reopen;
        case Fail(cause) =>
          // catch (Exception e): report, then throw a TailerException
          trace := trace + [HandleException(cause)];
          done' := done' + [HandleException(cause)];
          outcome := Fatal(cause);
        case Next =>
          outcome := Tailing;
      }
    }

    /** The body of handleFile's `while (true)` loop: the creation time is
        read first, then acted on. */
    method PollOnce(p: Poll, ghost st: Step) returns (verdict: Verdict)
      requires listener.Some?
      requires st == PollStep(listener.value, creationTime, Positions(), p)
      modifies this`position, this`lastFullLinePosition, this`trace
      ensures verdict == st.verdict && Positions() == st.session && trace == old(trace) + st.events
    {
      var newCreationTime := GetCreationTime(p.probe);
      verdict := ActOnCreationTime(newCreationTime, p, st);
    }

    /** The rest of the loop body once the creation time is read: a failed
        read ends the iteration, then the rotation test and, when it fails,
        the readLine loop over a new buffer. */
    method ActOnCreationTime(newCreationTime: Result<int>, p: Poll, ghost st: Step) returns (verdict: Verdict)
      requires listener.Some? && newCreationTime == ReadCreationTime(p.probe)
      requires st == PollStep(listener.value, creationTime, Positions(), p)
      modifies this`position, this`lastFullLinePosition, this`trace
      ensures verdict == st.verdict && Positions() == st.session && trace == old(trace) + st.events
    {
      if newCreationTime.Err? {
        return if newCreationTime.cause == NoSuchFile then Vanished else Fail(newCreationTime.cause);
      }
      if RotationDetected(p.length, position, newCreationTime.value, creationTime) {
        trace := trace + [Rotated(lastFullLinePosition)];
        HandleRotatedFile(RotatedName(listener.value, lastFullLinePosition), p.archives);
        position := 0;
        return Rotate;
      }
      ReadAvailable(p.chunks);
      verdict := if p.readFails then Fail(IoError) else Next;
    }

    /** The inner readLine loop over a buffer created for this iteration:
        each chunk advances `position` by its length plus one; when isValid
        accepts the accumulation the listener gets the chunk just read,
        lastFullLinePosition catches up with `position` and the buffer is
        emptied. The buffer is dropped at the end. */
    method ReadAvailable(chunks: seq<string>)
      requires listener.Some?
      modifies this`position, this`lastFullLinePosition, this`trace
      ensures var d := Drain(listener.value.valid, old(Positions()), chunks);
        Positions() == d.session && trace == old(trace) + d.events
    {
      ghost var s0 := Positions();
      var buffer := "";
      ghost var done: seq<Event> := [];
      var i := 0;
      while i < |chunks|
        invariant 0 <= i <= |chunks|
        invariant Drain(listener.value.valid, s0, chunks[..i]) == Drained(Positions(), buffer, done)
        invariant trace == old(trace) + done
      {
        var currentLine := chunks[i];
        assert chunks[..i + 1][..i] == chunks[..i];
        buffer := buffer + currentLine;
        position := position + |currentLine| + 1;
        if buffer in listener.value.valid {
          trace := trace + [Handle(currentLine)];
          done := done + [Handle(currentLine)];
          lastFullLinePosition := position;
          buffer := "";
        }
        i := i + 1;
      }
      assert chunks[..i] == chunks;
    }

    /** handleRotatedFile: reads the archived file after
        lastFullLinePosition characters from an empty buffer, and hands the
        listener the chunk that completes each valid accumulation. It
        changes neither position. */
    method HandleRotatedFile(rotatedFileName: Option<string>, archives: map<string, string>)
      requires listener.Some?
      modifies this`trace
      ensures trace == old(trace) + CatchUp(listener.value, rotatedFileName, archives, lastFullLinePosition)
    {
      if rotatedFileName.None? {
        return;
      }
      var name := rotatedFileName.value;
      if name !in archives {
        return;
      }
      var rotatedPosition := lastFullLinePosition;
      var chunks := Lines(Skip(archives[name], rotatedPosition));
      var buffer := "";
      ghost var done: seq<Event> := [];
      var i := 0;
      while i < |chunks|
        invariant 0 <= i <= |chunks|
        invariant Reread(listener.value.valid, chunks[..i]) == Pass(buffer, done)
        invariant trace == old(trace) + done
      {
        var currentLine := chunks[i];
        assert chunks[..i + 1][..i] == chunks[..i];
        buffer := buffer + currentLine;
        if buffer in listener.value.valid {
          trace := trace + [Handle(currentLine)];
          done := done + [Handle(currentLine)];
          buffer := "";
        }
        rotatedPosition := rotatedPosition + |currentLine|;  // counted, never read
        i := i + 1;
      }
      assert chunks[..i] == chunks;
    }

    /** getCreationTime: a single Files.readAttributes, with no retry. It
        yields the creation time exactly when the attributes could be read;
        a vanished file surfaces as NoSuchFileException and nothing else
        does. */
    method GetCreationTime(probe: Attr) returns (r: Result<int>)
      ensures r.Ok? <==> probe.Created?
      ensures r.Ok? ==> r.value == probe.millis
      ensures r.Err? ==> (r.cause == NoSuchFile <==> probe.Missing?) && (r.cause == IoError <==> probe.Unreadable?)
    {
      match probe {
        case Created(t) => return Ok(t);
        case Missing => return Err(NoSuchFile);
        case Unreadable => return Err(IoError);
      }
    }
  }
}
