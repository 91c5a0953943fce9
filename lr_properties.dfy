/** What LRTailer promises, stated over the functions of LRTailerSpec: the
    readLine loop and the catch-up agree with the shared buffer fold, no
    text is lost or duplicated while a file is open, a rotation is reported
    once and exactly when the conjunctive test holds, and every listener
    callback is made as often as the outcome says. */
module LRTailerProperties {
  import opened FileIo
  import opened Accumulation
  import opened LRTailerSpec

  /** The text handed to `handle` from the tailed file: the lines of the
      Handle events before the first Rotated event (the catch-up's
      deliveries from the archived file come after it). */
  function TailedText(events: seq<Event>): string
  {
    if events == [] || events[0].Rotated? then ""
    else (if events[0].Handle? then events[0].line else "") + TailedText(events[1..])
  }

  predicate NoRotation(events: seq<Event>)
  {
    forall e <- events :: !e.Rotated?
  }

  lemma {:induction false} TailedTextAppend(a: seq<Event>, b: seq<Event>)
    requires NoRotation(a)
    ensures TailedText(a + b) == TailedText(a) + TailedText(b)
    decreases |a|
  {
    if a == [] {
      assert a + b == b;
    } else {
      assert (a + b)[1..] == a[1..] + b;
      TailedTextAppend(a[1..], b);
    }
  }

  // ---------------------------------------------------------------------
  // The inner readLine loop

  /** The readLine loop is the shared buffer fold seeded with the pending
      buffer: `position` moves by Advance over every chunk, the buffer is
      what the fold leaves, each delivery hands over the whole accumulation
      against the tailed path, and lastFullLinePosition is where `position`
      stood right after the chunk of the last delivery. */
  lemma {:induction false} DrainFollowsAccumulate(setup: Setup, s: Session, chunks: seq<string>)
    ensures var d := Drain(setup, s, chunks);
      var scan := Accumulate(setup.listener.valid, s.buffer, chunks);
      d.session.position == s.position + Advance(chunks) &&
      d.session.buffer == scan.buffer &&
      d.events == Deliveries(setup.path, scan.cuts) &&
      d.session.lastFull == (if scan.cuts == [] then s.lastFull else s.position + Advance(chunks[..LastUpto(scan.cuts)]))
    decreases |chunks|
  {
    if chunks != [] {
      var init, line := chunks[..|chunks| - 1], chunks[|chunks| - 1];
      DrainFollowsAccumulate(setup, s, init);
      var prev := Accumulate(setup.listener.valid, s.buffer, init);
      var acc := prev.buffer + line;
      if acc in setup.listener.valid {
        var cut := Cut(acc, line, |chunks|);
        assert Deliveries(setup.path, prev.cuts + [cut]) == Deliveries(setup.path, prev.cuts) + [Handle(setup.path, acc)];
        assert chunks[..|chunks|] == chunks;
      } else if prev.cuts != [] {
        assert chunks[..LastUpto(prev.cuts)] == init[..LastUpto(prev.cuts)];
      }
    }
  }

  /** Each chunk moves `position` by its length plus one, whether or not it
      was a complete line. */
  lemma DrainAdvances(setup: Setup, s: Session, chunks: seq<string>)
    ensures Drain(setup, s, chunks).session.position == s.position + |Concat(chunks)| + |chunks|
  {
    DrainFollowsAccumulate(setup, s, chunks);
    AdvanceCountsTerminators(chunks);
  }

  /** Every callback of the readLine loop is a `handle` on the tailed path of
      a text isValid accepted. lastFullLinePosition stays put when nothing
      is delivered and otherwise lands after the old position and never
      beyond the new one. */
  lemma {:induction false} DrainDelivers(setup: Setup, s: Session, chunks: seq<string>)
    ensures var d := Drain(setup, s, chunks);
      (forall e <- d.events :: e.Handle? && e.filename == setup.path && e.line in setup.listener.valid) &&
      (d.events == [] ==> d.session.lastFull == s.lastFull) &&
      (d.events != [] ==> s.position < d.session.lastFull <= d.session.position) &&
      s.position <= d.session.position
    decreases |chunks|
  {
    if chunks != [] {
      DrainDelivers(setup, s, chunks[..|chunks| - 1]);
    }
  }

  /** No text is lost or duplicated: the text delivered followed by the
      buffer is the buffer before followed by every chunk read. */
  lemma {:induction false} DrainKeepsText(setup: Setup, s: Session, chunks: seq<string>)
    ensures var d := Drain(setup, s, chunks);
      NoRotation(d.events) && TailedText(d.events) + d.session.buffer == s.buffer + Concat(chunks)
    decreases |chunks|
  {
    if chunks != [] {
      var init, line := chunks[..|chunks| - 1], chunks[|chunks| - 1];
      DrainKeepsText(setup, s, init);
      var d := Drain(setup, s, init);
      var acc := d.session.buffer + line;
      Associative(TailedText(d.events), d.session.buffer, line);
      Associative(s.buffer, Concat(init), line);
      if acc in setup.listener.valid {
        TailedTextAppend(d.events, [Handle(setup.path, acc)]);
        assert TailedText([Handle(setup.path, acc)]) == acc + TailedText([]);
      }
    }
  }

  /** A record is delivered when chunk k is appended exactly when isValid
      accepts the text accumulated at that point; the delivery is the whole
      accumulation, lastFullLinePosition then equals `position` and the
      buffer is empty. */
  lemma DrainDeliversExactlyWhenValid(setup: Setup, s: Session, chunks: seq<string>, k: nat)
    requires k < |chunks|
    ensures var before := Drain(setup, s, chunks[..k]);
      var after := Drain(setup, s, chunks[..k + 1]);
      var acc := before.session.buffer + chunks[k];
      (acc in setup.listener.valid <==> after.events == before.events + [Handle(setup.path, acc)]) &&
      (acc in setup.listener.valid ==> after.session.lastFull == after.session.position && after.session.buffer == "") &&
      (acc !in setup.listener.valid ==> after.events == before.events && after.session.buffer == acc)
  {
    assert chunks[..k + 1][..k] == chunks[..k];
  }

  /** If isValid accepts nothing, the readLine loop never calls `handle`. */
  lemma {:induction false} DrainNeverValid(setup: Setup, s: Session, chunks: seq<string>)
    requires setup.listener.valid == iset{}
    ensures Drain(setup, s, chunks).events == []
    ensures Drain(setup, s, chunks).session.buffer == s.buffer + Concat(chunks)
    decreases |chunks|
  {
    if chunks != [] {
      DrainNeverValid(setup, s, chunks[..|chunks| - 1]);
      Associative(s.buffer, Concat(chunks[..|chunks| - 1]), chunks[|chunks| - 1]);
    }
  }

  // ---------------------------------------------------------------------
  // The catch-up over the archived file

  /** The catch-up loop is the shared buffer fold seeded with the pending
      buffer, delivering the completing chunk of each cut. */
  lemma {:induction false} RereadFollowsAccumulate(valid: iset<string>, name: string, seed: string, chunks: seq<string>)
    ensures var scan := Accumulate(valid, seed, chunks);
      Reread(valid, name, seed, chunks) == Pass(scan.buffer, CatchUpDeliveries(name, scan.cuts))
    decreases |chunks|
  {
    if chunks != [] {
      var init, line := chunks[..|chunks| - 1], chunks[|chunks| - 1];
      RereadFollowsAccumulate(valid, name, seed, init);
      var prev := Accumulate(valid, seed, init);
      var cut := Cut(prev.buffer + line, line, |chunks|);
      assert CatchUpDeliveries(name, prev.cuts + [cut]) == CatchUpDeliveries(name, prev.cuts) + [Handle(name, line)];
    }
  }

  /** The catch-up does nothing when `rotated` returned null or the file is
      absent. Otherwise it reads the archived file after
      max(lastFullLinePosition, position) characters, seeds the buffer with
      the pending text, and hands the listener, against the archived name,
      exactly the chunk that completed each accumulation isValid accepted. */
  lemma CatchUpShape(setup: Setup, rotatedFileName: Option<string>, archives: map<string, string>, s: Session)
    ensures rotatedFileName.None? || rotatedFileName.value !in archives ==> CatchUp(setup, rotatedFileName, archives, s) == []
    ensures rotatedFileName.Some? && rotatedFileName.value in archives ==>
      var name := rotatedFileName.value;
      var chunks := Lines(Skip(archives[name], Max(s.lastFull, s.position)));
      var cuts := Accumulate(setup.listener.valid, s.buffer, chunks).cuts;
      CatchUp(setup, rotatedFileName, archives, s) == CatchUpDeliveries(name, cuts) &&
      forall cut <- cuts :: cut.accumulated in setup.listener.valid && cut.last == chunks[cut.upto - 1] &&
        EndsWith(cut.accumulated, cut.last)
  {
    if rotatedFileName.Some? && rotatedFileName.value in archives {
      var name := rotatedFileName.value;
      var chunks := ArchivedChunks(archives[name], s);
      RereadFollowsAccumulate(setup.listener.valid, name, s.buffer, chunks);
      DeliveriesAreValid(setup.listener.valid, s.buffer, chunks);
    }
  }

  /** Every catch-up callback is a `handle` on the archived name. */
  lemma {:induction false} RereadHandles(valid: iset<string>, name: string, seed: string, chunks: seq<string>)
    ensures forall e <- Reread(valid, name, seed, chunks).events :: e.Handle? && e.filename == name
    ensures valid == iset{} ==> Reread(valid, name, seed, chunks).events == []
    decreases |chunks|
  {
    if chunks != [] {
      RereadHandles(valid, name, seed, chunks[..|chunks| - 1]);
    }
  }

  /** A chunk readLine returns at the end of the file, before its line is
      complete, still moves `position` past a terminator that was not read,
      and the catch-up of a later rotation skips by that position. Here
      "abcdef" arrives in two chunks "abc" and "def" before its '\n' is
      written: `position` ends at 8, one past the 7 characters of
      "abcdef\n", and the catch-up over the archived "abcdef\nXYZ\n" with
      that session starts after the 'X', which is never delivered. */
  lemma PartialChunkDrift()
    ensures var setup := Setup(Listener(iset{}, imap[]), "app.log");
      var d := Drain(setup, Session(0, 0, ""), ["abc", "def"]);
      d.session == Session(8, 0, "abcdef") && |"abcdef\n"| == 7 &&
      ArchivedChunks("abcdef\nXYZ\n", d.session) == ["YZ"]
  {
    var setup := Setup(Listener(iset{}, imap[]), "app.log");
    var chunks := ["abc", "def"];
    assert chunks[..1] == ["abc"] && ["abc"][..0] == [];
    var rest := Skip("abcdef\nXYZ\n", 8);
    assert rest == "YZ\n";
    assert LineEnd(rest, 2) == 2 && LineEnd(rest, 1) == 2 && LineEnd(rest, 0) == 2;
    assert rest[..2] == "YZ" && rest[3..] == "";
  }

  // ---------------------------------------------------------------------
  // One iteration of handleFile's loop

  /** A rotation is acted on exactly when the creation time could be read,
      the file is shorter than `position` by more than one, and it was
      created later than the time read at open. Then `rotated` is called
      once, first, with the values from before the reset; the catch-up's
      deliveries follow; `position` becomes 0 and lastFullLinePosition and
      the pending buffer are kept; nothing is read from the tailed file. */
  lemma RotationStep(setup: Setup, creationTime: int, s: Session, p: Poll)
    ensures var st := PollStep(setup, creationTime, s, p);
      var t := CreationTime(p.probe);
      (st.verdict == Rotate <==> t.Ok? && p.length + 1 < s.position && t.value > creationTime) &&
      (st.verdict == Rotate ==>
        st.session == Session(0, s.lastFull, s.buffer) && st.consumed == [] &&
        st.events[0] == Rotated(s.lastFull, s.position) && Count(st.events, IsRotated) == 1 &&
        st.events[1..] == CatchUp(setup, RotatedName(setup.listener, s.lastFull, s.position), p.archives, s))
  {
    var st := PollStep(setup, creationTime, s, p);
    if st.verdict == Rotate {
      var name := RotatedName(setup.listener, s.lastFull, s.position);
      var rest := CatchUp(setup, name, p.archives, s);
      assert st.events == [Rotated(s.lastFull, s.position)] + rest;
      assert st.events[1..] == rest;
      if name.Some? && name.value in p.archives {
        RereadHandles(setup.listener.valid, name.value, s.buffer, ArchivedChunks(p.archives[name.value], s));
      }
      NoRotationCount(rest);
      CountAppend([Rotated(s.lastFull, s.position)], rest, IsRotated);
    }
  }

  lemma {:induction false} NoRotationCount(events: seq<Event>)
    requires NoRotation(events)
    ensures Count(events, IsRotated) == 0
    decreases |events|
  {
    if events != [] {
      NoRotationCount(events[..|events| - 1]);
    }
  }

  /** When getCreationTime fails, the iteration reads nothing and calls no
      listener: a NoSuchFileException is swallowed and the loop goes round
      again, any other exception ends it. */
  lemma ProbeFailureStep(setup: Setup, creationTime: int, s: Session, p: Poll)
    requires CreationTime(p.probe).Err?
    ensures var st := PollStep(setup, creationTime, s, p);
      st.session == s && st.events == [] && st.consumed == [] &&
      (st.verdict == Next <==> CreationTime(p.probe).cause == NoSuchFile) &&
      (st.verdict != Next ==> st.verdict == Fail(IoError))
  {
    AttemptOutcome(p.probe, 0);
  }

  /** One iteration keeps the text balance, and calls `rotated` only when it
      ends the loop to reopen. */
  lemma PollStepKeepsText(setup: Setup, creationTime: int, s: Session, p: Poll)
    ensures var st := PollStep(setup, creationTime, s, p);
      (st.verdict != Rotate ==> NoRotation(st.events)) &&
      TailedText(st.events) + st.session.buffer == s.buffer + Concat(st.consumed)
  {
    var st := PollStep(setup, creationTime, s, p);
    if st.verdict == Rotate {
      assert TailedText(st.events) == "";
    } else {
      DrainKeepsText(setup, s, p.chunks);
    }
  }

  // ---------------------------------------------------------------------
  // handleFile's loop and handleFile

  /** While a file is open no text is lost or duplicated: the text handed
      to `handle` from the tailed file followed by the buffer is the buffer
      the loop started with followed by every chunk read. */
  lemma {:induction false} TailKeepsText(setup: Setup, creationTime: int, s: Session, polls: seq<Poll>)
    ensures var r := Tail(setup, creationTime, s, polls);
      TailedText(r.events) + r.session.buffer == s.buffer + Concat(r.consumed)
    decreases |polls|
  {
    if polls != [] && !polls[0].stop {
      var st := PollStep(setup, creationTime, s, polls[0]);
      PollStepKeepsText(setup, creationTime, s, polls[0]);
      match st.verdict
      case Rotate =>
      case Fail(cause) =>
        TailedTextAppend(st.events, [HandleException(cause)]);
        assert TailedText([HandleException(cause)]) == "" + TailedText([]);
      case Next =>
        var r := Tail(setup, creationTime, st.session, polls[1..]);
        TailKeepsText(setup, creationTime, st.session, polls[1..]);
        TailedTextAppend(st.events, r.events);
        ConcatAppend(st.consumed, r.consumed);
        Associative(TailedText(st.events), TailedText(r.events), r.session.buffer);
        Associative(TailedText(st.events), st.session.buffer, Concat(r.consumed));
        Associative(s.buffer, Concat(st.consumed), Concat(r.consumed));
    }
  }

  /** Since handleFile opened the file, the text handed to `handle` from it
      followed by the buffer is exactly every chunk read. */
  lemma HandleFileKeepsText(setup: Setup, position: nat, lastFull: nat, e: Epoch)
    ensures var r := HandleFileSpec(setup, position, lastFull, e);
      TailedText(r.events) + r.session.buffer == Concat(r.consumed)
  {
    if e.opens && CreationTime(e.probe).Ok? {
      TailKeepsText(setup, CreationTime(e.probe).value, Session(position, lastFull, ""), e.polls);
    } else {
      var r := HandleFileSpec(setup, position, lastFull, e);
      assert TailedText(r.events) == "" + TailedText([]);
    }
  }

  /** handleFile's loop calls `rotated` once exactly when it ends asking
      for a reopen, and never otherwise. */
  lemma {:induction false} TailRotations(setup: Setup, creationTime: int, s: Session, polls: seq<Poll>)
    ensures var r := Tail(setup, creationTime, s, polls);
      Count(r.events, IsRotated) == (if r.outcome == Reopen then 1 else 0)
    decreases |polls|
  {
    if polls != [] && !polls[0].stop {
      var st := PollStep(setup, creationTime, s, polls[0]);
      StepCallbacks(setup, creationTime, s, polls[0]);
      match st.verdict
      case Rotate =>
      case Fail(cause) =>
        CountAppend(st.events, [HandleException(cause)], IsRotated);
        assert Count([HandleException(cause)], IsRotated) == 0;
      case Next =>
        var r := Tail(setup, creationTime, st.session, polls[1..]);
        TailRotations(setup, creationTime, st.session, polls[1..]);
        CountAppend(st.events, r.events, IsRotated);
    }
  }

  /** handleFile's loop calls `handleException` once exactly when it ends
      by throwing, as its last callback and with the exception it throws;
      every other callback is `handle` or `rotated`. */
  lemma {:induction false} TailExceptions(setup: Setup, creationTime: int, s: Session, polls: seq<Poll>)
    ensures var r := Tail(setup, creationTime, s, polls);
      Count(r.events, IsHandleException) == (if r.outcome.Fatal? then 1 else 0) &&
      (r.outcome.Fatal? ==> r.events != [] && r.events[|r.events| - 1] == HandleException(r.outcome.cause)) &&
      (forall e <- r.events :: e.Handle? || e.Rotated? || e.HandleException?)
    decreases |polls|
  {
    if polls != [] && !polls[0].stop {
      var st := PollStep(setup, creationTime, s, polls[0]);
      StepCallbacks(setup, creationTime, s, polls[0]);
      match st.verdict
      case Rotate =>
      case Fail(cause) =>
        CountAppend(st.events, [HandleException(cause)], IsHandleException);
      case Next =>
        var r := Tail(setup, creationTime, st.session, polls[1..]);
        TailExceptions(setup, creationTime, st.session, polls[1..]);
        CountAppend(st.events, r.events, IsHandleException);
        assert r.outcome.Fatal? ==> (st.events + r.events)[|st.events + r.events| - 1] == r.events[|r.events| - 1];
    }
  }

  /** The callbacks of one iteration: at most one `rotated`, only when it
      asks for a reopen, never a `handleException` (handleFile's outer catch
      makes that call), and otherwise `handle` only. */
  lemma StepCallbacks(setup: Setup, creationTime: int, s: Session, p: Poll)
    ensures var st := PollStep(setup, creationTime, s, p);
      Count(st.events, IsRotated) == (if st.verdict == Rotate then 1 else 0) &&
      Count(st.events, IsHandleException) == 0 &&
      (forall e <- st.events :: e.Handle? || e.Rotated?)
  {
    var st := PollStep(setup, creationTime, s, p);
    RotationStep(setup, creationTime, s, p);
    if st.verdict == Rotate {
      var name := RotatedName(setup.listener, s.lastFull, s.position);
      if name.Some? && name.value in p.archives {
        RereadHandles(setup.listener.valid, name.value, s.buffer, ArchivedChunks(p.archives[name.value], s));
      }
      CountNone(st.events[1..], IsRotated);
      CountNone(st.events[1..], IsHandleException);
      assert st.events == [st.events[0]] + st.events[1..];
      CountAppend([st.events[0]], st.events[1..], IsHandleException);
    } else if st.events != [] {
      DrainDelivers(setup, s, p.chunks);
      CountNone(st.events, IsRotated);
      CountNone(st.events, IsHandleException);
    }
  }

  /** handleFile calls `handleException` once exactly when it throws, as
      its last callback, and `rotated` once exactly when it asks for a
      reopen. */
  lemma HandleFileCallbacks(setup: Setup, position: nat, lastFull: nat, e: Epoch)
    ensures var r := HandleFileSpec(setup, position, lastFull, e);
      Count(r.events, IsRotated) == (if r.outcome == Reopen then 1 else 0) &&
      Count(r.events, IsHandleException) == (if r.outcome.Fatal? then 1 else 0) &&
      (r.outcome.Fatal? ==> r.events != [] && r.events[|r.events| - 1] == HandleException(r.outcome.cause)) &&
      (forall ev <- r.events :: ev.Handle? || ev.Rotated? || ev.HandleException?)
  {
    if e.opens && CreationTime(e.probe).Ok? {
      TailRotations(setup, CreationTime(e.probe).value, Session(position, lastFull, ""), e.polls);
      TailExceptions(setup, CreationTime(e.probe).value, Session(position, lastFull, ""), e.polls);
    } else {
      var r := HandleFileSpec(setup, position, lastFull, e);
      assert r.events == [] + [r.events[0]];
    }
  }

  // ---------------------------------------------------------------------
  // run()

  /** run() returns normally exactly when `run` was cleared by stop(); when
      it throws, `handleException` was called once, as the last callback,
      with the exception it wraps; `notExists` is never called once the
      file was found at start. */
  lemma {:induction false} RunLoopCallbacks(setup: Setup, position: nat, lastFull: nat, creationTime: int, run: bool, epochs: seq<Epoch>)
    ensures var f := RunLoop(setup, position, lastFull, creationTime, run, epochs);
      (f.ending == Returned <==> !f.run) &&
      Count(f.events, IsHandleException) == (if f.ending.Thrown? then 1 else 0) &&
      (f.ending.Thrown? ==> f.events != [] && f.events[|f.events| - 1] == HandleException(f.ending.cause)) &&
      (forall ev <- f.events :: ev.Handle? || ev.Rotated? || ev.HandleException?)
    decreases |epochs|
  {
    if run && epochs != [] && !epochs[0].stop {
      var r := HandleFileSpec(setup, position, lastFull, epochs[0]);
      HandleFileCallbacks(setup, position, lastFull, epochs[0]);
      if r.outcome == Reopen {
        var f := RunLoop(setup, r.session.position, r.session.lastFull, OpenedCreationTime(creationTime, epochs[0]), true, epochs[1..]);
        RunLoopCallbacks(setup, r.session.position, r.session.lastFull, OpenedCreationTime(creationTime, epochs[0]), true, epochs[1..]);
        CountAppend(r.events, f.events, IsHandleException);
        assert f.ending.Thrown? ==> (r.events + f.events)[|r.events + f.events| - 1] == f.events[|f.events| - 1];
      }
    }
  }

  /** run() on a file absent at start calls `notExists` once and nothing
      else; on a present file it never calls `notExists`. */
  lemma RunNotExists(setup: Setup, position: nat, lastFull: nat, creationTime: int, run: bool, present: bool, epochs: seq<Epoch>)
    ensures var f := RunSpec(setup, position, lastFull, creationTime, run, present, epochs);
      (!present ==> f.events == [NotExists] && f.ending == Thrown(FileNotFound)) &&
      (present ==> forall ev <- f.events :: !ev.NotExists?)
  {
    RunLoopCallbacks(setup, position, lastFull, creationTime, run, epochs);
  }

  /** If isValid accepts nothing, handleFile's loop never calls `handle`,
      neither on the tailed file nor in a catch-up. */
  lemma {:induction false} TailNeverValid(setup: Setup, creationTime: int, s: Session, polls: seq<Poll>)
    requires setup.listener.valid == iset{}
    ensures forall ev <- Tail(setup, creationTime, s, polls).events :: !ev.Handle?
    decreases |polls|
  {
    if polls != [] && !polls[0].stop {
      var p := polls[0];
      var st := PollStep(setup, creationTime, s, p);
      DrainNeverValid(setup, s, p.chunks);
      var name := RotatedName(setup.listener, s.lastFull, s.position);
      if name.Some? && name.value in p.archives {
        RereadHandles(setup.listener.valid, name.value, s.buffer, ArchivedChunks(p.archives[name.value], s));
      }
      assert forall ev <- st.events :: !ev.Handle?;
      if st.verdict == Next {
        TailNeverValid(setup, creationTime, st.session, polls[1..]);
      }
    }
  }

  /** If isValid accepts nothing, run() never calls `handle`. */
  lemma {:induction false} RunNeverValid(setup: Setup, position: nat, lastFull: nat, creationTime: int, run: bool, epochs: seq<Epoch>)
    requires setup.listener.valid == iset{}
    ensures forall ev <- RunLoop(setup, position, lastFull, creationTime, run, epochs).events :: !ev.Handle?
    decreases |epochs|
  {
    if run && epochs != [] && !epochs[0].stop {
      var e := epochs[0];
      var r := HandleFileSpec(setup, position, lastFull, e);
      if e.opens && CreationTime(e.probe).Ok? {
        TailNeverValid(setup, CreationTime(e.probe).value, Session(position, lastFull, ""), e.polls);
      }
      if r.outcome == Reopen {
        RunNeverValid(setup, r.session.position, r.session.lastFull, OpenedCreationTime(creationTime, e), true, epochs[1..]);
      }
    }
  }
}
