/** What com.keedio.Tailer promises, stated over the functions of
    TailerSpec: its readLine loop is the shared buffer fold seeded afresh
    on every poll, so text never crosses from one poll to the next; the
    listener receives only completing chunks; a rotation is reported once
    and exactly when the disjunctive test holds; and run() never returns
    normally. */
module TailerProperties {
  import opened FileIo
  import opened Accumulation
  import opened TailerSpec

  /** The callbacks for the completing chunk of each cut. */
  function Completions(cuts: seq<Cut>): seq<Event>
  {
    seq(|cuts|, i requires 0 <= i < |cuts| => Handle(cuts[i].last))
  }

  lemma CompletionsSnoc(cuts: seq<Cut>, cut: Cut)
    ensures Completions(cuts + [cut]) == Completions(cuts) + [Handle(cut.last)]
  {
  }

  // ---------------------------------------------------------------------
  // The inner readLine loop of one poll

  /** The readLine loop of a poll is the shared buffer fold seeded with an
      empty buffer: `position` moves by Advance over every chunk, each
      callback hands over the chunk that completed an accepted
      accumulation, and lastFullLinePosition is where `position` stood
      right after the last such chunk. */
  lemma {:induction false} DrainFollowsAccumulate(valid: iset<string>, s: Session, chunks: seq<string>)
    ensures var d := Drain(valid, s, chunks);
      var scan := Accumulate(valid, "", chunks);
      d.session.position == s.position + Advance(chunks) &&
      d.buffer == scan.buffer &&
      d.events == Completions(scan.cuts) &&
      d.session.lastFull == (if scan.cuts == [] then s.lastFull else s.position + Advance(chunks[..LastUpto(scan.cuts)]))
    decreases |chunks|
  {
    if chunks != [] {
      var init, line := chunks[..|chunks| - 1], chunks[|chunks| - 1];
      DrainFollowsAccumulate(valid, s, init);
      var prev := Accumulate(valid, "", init);
      var acc := prev.buffer + line;
      if acc in valid {
        CompletionsSnoc(prev.cuts, Cut(acc, line, |chunks|));
        assert chunks[..|chunks|] == chunks;
      } else if prev.cuts != [] {
        assert chunks[..LastUpto(prev.cuts)] == init[..LastUpto(prev.cuts)];
      }
    }
  }

  /** Each chunk moves `position` by its length plus one. Every callback is
      a `handle` of one of this poll's chunks that completed an accumulation
      isValid accepted; the accumulations judged are made of this poll's
      chunks only, since they and the leftover buffer spell out exactly the
      chunks read. */
  lemma DrainDelivers(valid: iset<string>, s: Session, chunks: seq<string>)
    ensures var d := Drain(valid, s, chunks);
      var scan := Accumulate(valid, "", chunks);
      d.session.position == s.position + |Concat(chunks)| + |chunks| &&
      (forall cut <- scan.cuts :: cut.last == chunks[cut.upto - 1] && cut.accumulated in valid &&
        EndsWith(cut.accumulated, cut.last)) &&
      Concat(Records(scan.cuts)) + d.buffer == Concat(chunks)
  {
    DrainFollowsAccumulate(valid, s, chunks);
    AdvanceCountsTerminators(chunks);
    DeliveriesAreValid(valid, "", chunks);
    NoTextLost(valid, "", chunks);
  }

  /** No joining across polls: the callbacks of a poll and the buffer it
      drops depend only on its own chunks, never on what earlier polls
      read; the positions move by the same amount from wherever they were. */
  lemma {:induction false} DrainIgnoresHistory(valid: iset<string>, s: Session, s': Session, chunks: seq<string>)
    ensures var d, d' := Drain(valid, s, chunks), Drain(valid, s', chunks);
      d.events == d'.events && d.buffer == d'.buffer &&
      d.session.position - s.position == d'.session.position - s'.position &&
      (d.events != [] ==> d.session.lastFull - s.position == d'.session.lastFull - s'.position)
    decreases |chunks|
  {
    if chunks != [] {
      DrainIgnoresHistory(valid, s, s', chunks[..|chunks| - 1]);
    }
  }

  /** If isValid accepts nothing, the readLine loop never calls `handle`. */
  lemma {:induction false} DrainNeverValid(valid: iset<string>, s: Session, chunks: seq<string>)
    requires valid == iset{}
    ensures Drain(valid, s, chunks).events == [] && Drain(valid, s, chunks).session.lastFull == s.lastFull
    decreases |chunks|
  {
    if chunks != [] {
      DrainNeverValid(valid, s, chunks[..|chunks| - 1]);
    }
  }

  /** Every callback of the readLine loop is a `handle`. */
  lemma {:induction false} DrainHandles(valid: iset<string>, s: Session, chunks: seq<string>)
    ensures forall e <- Drain(valid, s, chunks).events :: e.Handle?
    decreases |chunks|
  {
    if chunks != [] {
      DrainHandles(valid, s, chunks[..|chunks| - 1]);
    }
  }

  // ---------------------------------------------------------------------
  // The catch-up over the archived file

  /** The catch-up loop is the shared buffer fold from an empty buffer,
      delivering the completing chunk of each cut. */
  lemma {:induction false} RereadFollowsAccumulate(valid: iset<string>, chunks: seq<string>)
    ensures var scan := Accumulate(valid, "", chunks);
      Reread(valid, chunks) == Pass(scan.buffer, Completions(scan.cuts))
    decreases |chunks|
  {
    if chunks != [] {
      var init, line := chunks[..|chunks| - 1], chunks[|chunks| - 1];
      RereadFollowsAccumulate(valid, init);
      var prev := Accumulate(valid, "", init);
      CompletionsSnoc(prev.cuts, Cut(prev.buffer + line, line, |chunks|));
    }
  }

  /** The catch-up does nothing when `rotated` returned null or the file is
      absent. Otherwise it reads the archived file after
      lastFullLinePosition characters from an empty buffer and hands the
      listener exactly the chunk that completed each accumulation isValid
      accepted. */
  lemma CatchUpShape(listener: Listener, rotatedFileName: Option<string>, archives: map<string, string>, lastFull: nat)
    ensures rotatedFileName.None? || rotatedFileName.value !in archives ==>
      CatchUp(listener, rotatedFileName, archives, lastFull) == []
    ensures rotatedFileName.Some? && rotatedFileName.value in archives ==>
      var chunks := Lines(Skip(archives[rotatedFileName.value], lastFull));
      var cuts := Accumulate(listener.valid, "", chunks).cuts;
      CatchUp(listener, rotatedFileName, archives, lastFull) == Completions(cuts) &&
      forall cut <- cuts :: cut.accumulated in listener.valid && cut.last == chunks[cut.upto - 1]
  {
    if rotatedFileName.Some? && rotatedFileName.value in archives {
      var chunks := ArchivedChunks(archives[rotatedFileName.value], lastFull);
      RereadFollowsAccumulate(listener.valid, chunks);
      DeliveriesAreValid(listener.valid, "", chunks);
    }
  }

  /** Every catch-up callback is a `handle`; none at all if isValid accepts nothing. */
  lemma {:induction false} RereadHandles(valid: iset<string>, chunks: seq<string>)
    ensures forall e <- Reread(valid, chunks).events :: e.Handle?
    ensures valid == iset{} ==> Reread(valid, chunks).events == []
    decreases |chunks|
  {
    if chunks != [] {
      RereadHandles(valid, chunks[..|chunks| - 1]);
    }
  }

  // ---------------------------------------------------------------------
  // One iteration of handleFile's loop

  /** A rotation is acted on exactly when the creation time could be read
      and the file is shorter than `position` by more than one OR it was
      created later than the time read at open. Then `rotated` is called
      once, first, with lastFullLinePosition; the catch-up's deliveries
      follow; `position` becomes 0 and nothing is read from the tailed file. */
  lemma RotationStep(listener: Listener, creationTime: int, s: Session, p: Poll)
    ensures var st := PollStep(listener, creationTime, s, p);
      (st.verdict == Rotate <==>
        p.probe.Created? && (p.length + 1 < s.position || p.probe.millis > creationTime)) &&
      (st.verdict == Rotate ==>
        st.session == Session(0, s.lastFull) && st.consumed == [] &&
        st.events[0] == Rotated(s.lastFull) && Count(st.events, IsRotated) == 1 &&
        st.events[1..] == CatchUp(listener, RotatedName(listener, s.lastFull), p.archives, s.lastFull))
  {
    var st := PollStep(listener, creationTime, s, p);
    if st.verdict == Rotate {
      var name := RotatedName(listener, s.lastFull);
      var rest := CatchUp(listener, name, p.archives, s.lastFull);
      assert st.events == [Rotated(s.lastFull)] + rest;
      assert st.events[1..] == rest;
      if name.Some? && name.value in p.archives {
        RereadHandles(listener.valid, ArchivedChunks(p.archives[name.value], s.lastFull));
      }
      CountNone(rest, IsRotated);
      CountNone(rest, IsHandleException);
      CountAppend([Rotated(s.lastFull)], rest, IsRotated);
    }
  }

  /** A creation time that cannot be read ends the iteration without a
      callback and without reading: a vanished file makes handleFile return
      true, any other failure throws. */
  lemma ProbeFailureStep(listener: Listener, creationTime: int, s: Session, p: Poll)
    requires !p.probe.Created?
    ensures var st := PollStep(listener, creationTime, s, p);
      st.session == s && st.events == [] && st.consumed == [] &&
      (p.probe.Missing? <==> st.verdict == Vanished) &&
      (p.probe.Unreadable? <==> st.verdict == Fail(IoError))
  {
  }

  /** The callbacks of one iteration: `rotated` once exactly on a rotation,
      never `handleException` (handleFile's catch makes that call), and
      otherwise `handle` only. */
  lemma StepCallbacks(listener: Listener, creationTime: int, s: Session, p: Poll)
    ensures var st := PollStep(listener, creationTime, s, p);
      Count(st.events, IsRotated) == (if st.verdict == Rotate then 1 else 0) &&
      Count(st.events, IsHandleException) == 0 &&
      (forall e <- st.events :: e.Handle? || e.Rotated?)
  {
    var st := PollStep(listener, creationTime, s, p);
    RotationStep(listener, creationTime, s, p);
    if st.verdict == Rotate {
      var name := RotatedName(listener, s.lastFull);
      if name.Some? && name.value in p.archives {
        RereadHandles(listener.valid, ArchivedChunks(p.archives[name.value], s.lastFull));
      }
      CountNone(st.events[1..], IsRotated);
      CountNone(st.events[1..], IsHandleException);
      assert st.events == [st.events[0]] + st.events[1..];
      CountAppend([st.events[0]], st.events[1..], IsHandleException);
    } else if st.events != [] {
      DrainHandles(listener.valid, s, p.chunks);
      CountNone(st.events, IsRotated);
      CountNone(st.events, IsHandleException);
    }
  }

  // ---------------------------------------------------------------------
  // handleFile's loop and handleFile

  /** handleFile's loop calls `rotated` at most once, and only when it ends
      asking for a reopen. */
  lemma {:induction false} TailRotations(listener: Listener, creationTime: int, s: Session, polls: seq<Poll>)
    ensures var r := Tail(listener, creationTime, s, polls);
      Count(r.events, IsRotated) <= 1 && (Count(r.events, IsRotated) == 1 ==> r.outcome == Reopen)
    decreases |polls|
  {
    if polls != [] {
      var st := PollStep(listener, creationTime, s, polls[0]);
      StepCallbacks(listener, creationTime, s, polls[0]);
      match st.verdict
      case Rotate =>
      case Vanished =>
      case Fail(cause) =>
        CountAppend(st.events, [HandleException(cause)], IsRotated);
        assert Count([HandleException(cause)], IsRotated) == 0;
      case Next =>
        TailRotations(listener, creationTime, st.session, polls[1..]);
        CountAppend(st.events, Tail(listener, creationTime, st.session, polls[1..]).events, IsRotated);
    }
  }

  /** handleFile's loop calls `handleException` once exactly when it ends
      by throwing, as its last callback and with the exception it throws;
      every other callback is `handle` or `rotated`. */
  lemma {:induction false} TailExceptions(listener: Listener, creationTime: int, s: Session, polls: seq<Poll>)
    ensures var r := Tail(listener, creationTime, s, polls);
      Count(r.events, IsHandleException) == (if r.outcome.Fatal? then 1 else 0) &&
      (r.outcome.Fatal? ==> r.events != [] && r.events[|r.events| - 1] == HandleException(r.outcome.cause)) &&
      (forall e <- r.events :: e.Handle? || e.Rotated? || e.HandleException?)
    decreases |polls|
  {
    if polls != [] {
      var st := PollStep(listener, creationTime, s, polls[0]);
      StepCallbacks(listener, creationTime, s, polls[0]);
      match st.verdict
      case Rotate =>
      case Vanished =>
      case Fail(cause) =>
        CountAppend(st.events, [HandleException(cause)], IsHandleException);
      case Next =>
        var r := Tail(listener, creationTime, st.session, polls[1..]);
        TailExceptions(listener, creationTime, st.session, polls[1..]);
        CountAppend(st.events, r.events, IsHandleException);
        assert r.outcome.Fatal? ==> (st.events + r.events)[|st.events + r.events| - 1] == r.events[|r.events| - 1];
    }
  }

  /** handleFile calls `handleException` once exactly when it throws, as its
      last callback; `rotated` at most once, only when it returns true. */
  lemma HandleFileCallbacks(listener: Listener, s: Session, e: Epoch)
    ensures var r := HandleFileSpec(listener, s, e);
      Count(r.events, IsRotated) <= 1 && (Count(r.events, IsRotated) == 1 ==> r.outcome == Reopen) &&
      Count(r.events, IsHandleException) == (if r.outcome.Fatal? then 1 else 0) &&
      (r.outcome.Fatal? ==> r.events != [] && r.events[|r.events| - 1] == HandleException(r.outcome.cause)) &&
      (forall ev <- r.events :: ev.Handle? || ev.Rotated? || ev.HandleException?)
  {
    if e.opens && ReadCreationTime(e.probe).Ok? {
      TailRotations(listener, ReadCreationTime(e.probe).value, s, e.polls);
      TailExceptions(listener, ReadCreationTime(e.probe).value, s, e.polls);
    } else {
      var r := HandleFileSpec(listener, s, e);
      assert r.events == [] || r.events == [] + [r.events[0]];
    }
  }

  // ---------------------------------------------------------------------
  // run()

  /** run()'s loop never ends normally: it ends by a TailerException, with
      `handleException` called once as the last callback and carrying its
      cause, or it is still tailing when the inputs end. */
  lemma {:induction false} RunLoopCallbacks(listener: Listener, s: Session, creationTime: int, epochs: seq<Epoch>)
    ensures var f := RunLoop(listener, s, creationTime, epochs);
      f.ending != Returned &&
      Count(f.events, IsHandleException) == (if f.ending.Thrown? then 1 else 0) &&
      (f.ending.Thrown? ==> f.events != [] && f.events[|f.events| - 1] == HandleException(f.ending.cause)) &&
      (forall ev <- f.events :: ev.Handle? || ev.Rotated? || ev.HandleException?)
    decreases |epochs|
  {
    if epochs != [] {
      var r := HandleFileSpec(listener, s, epochs[0]);
      HandleFileCallbacks(listener, s, epochs[0]);
      if r.outcome == Reopen {
        var ct := OpenedCreationTime(creationTime, epochs[0]);
        var f := RunLoop(listener, r.session, ct, epochs[1..]);
        RunLoopCallbacks(listener, r.session, ct, epochs[1..]);
        CountAppend(r.events, f.events, IsHandleException);
        assert f.ending.Thrown? ==> (r.events + f.events)[|r.events + f.events| - 1] == f.events[|f.events| - 1];
      }
    }
  }

  /** run() never returns normally. A null listener is refused with an
      IllegalStateException before any callback; an absent file gets one
      `notExists` and a FileNotFoundException; otherwise `notExists` is
      never called. */
  lemma RunEndings(listener: Option<Listener>, s: Session, creationTime: int, present: bool, epochs: seq<Epoch>)
    ensures var f := RunSpec(listener, s, creationTime, present, epochs);
      f.ending != Returned &&
      (listener.None? ==> f.ending == Thrown(IllegalState) && f.events == []) &&
      (listener.Some? && !present ==> f.ending == Thrown(FileNotFound) && f.events == [NotExists]) &&
      (listener.Some? && present ==> forall ev <- f.events :: !ev.NotExists?)
  {
    if listener.Some? && present {
      RunLoopCallbacks(listener.value, s, creationTime, epochs);
    }
  }

  /** A path that exists but cannot be opened for reading (a directory):
      `handleException` once, then a FileNotFoundException, and `rotated`
      is never called. */
  lemma UnopenableFile(listener: Listener, s: Session, creationTime: int, epochs: seq<Epoch>)
    requires epochs != [] && !epochs[0].opens
    ensures var f := RunSpec(Some(listener), s, creationTime, true, epochs);
      f.ending == Thrown(FileNotFound) && f.events == [HandleException(FileNotFound)] &&
      Count(f.events, IsRotated) == 0
  {
    assert RunLoop(listener, s, creationTime, epochs) == Reopened(listener, s, creationTime, epochs);
    assert Count([HandleException(FileNotFound)], IsRotated) == Count([], IsRotated);
  }

  /** If isValid accepts nothing, handleFile's loop never calls `handle`. */
  lemma {:induction false} TailNeverValid(listener: Listener, creationTime: int, s: Session, polls: seq<Poll>)
    requires listener.valid == iset{}
    ensures forall ev <- Tail(listener, creationTime, s, polls).events :: !ev.Handle?
    decreases |polls|
  {
    if polls != [] {
      var p := polls[0];
      var st := PollStep(listener, creationTime, s, p);
      DrainNeverValid(listener.valid, s, p.chunks);
      var name := RotatedName(listener, s.lastFull);
      if name.Some? && name.value in p.archives {
        RereadHandles(listener.valid, ArchivedChunks(p.archives[name.value], s.lastFull));
      }
      assert forall ev <- st.events :: !ev.Handle?;
      if st.verdict == Next {
        TailNeverValid(listener, creationTime, st.session, polls[1..]);
      }
    }
  }

  /** If isValid accepts nothing, run() never calls `handle`. */
  lemma {:induction false} RunNeverValid(listener: Listener, s: Session, creationTime: int, epochs: seq<Epoch>)
    requires listener.valid == iset{}
    ensures forall ev <- RunLoop(listener, s, creationTime, epochs).events :: !ev.Handle?
    decreases |epochs|
  {
    if epochs != [] {
      var e := epochs[0];
      var r := HandleFileSpec(listener, s, e);
      if e.opens && ReadCreationTime(e.probe).Ok? {
        TailNeverValid(listener, ReadCreationTime(e.probe).value, s, e.polls);
      }
      if r.outcome == Reopen {
        RunNeverValid(listener, r.session, OpenedCreationTime(creationTime, e), epochs[1..]);
      }
    }
  }
}
