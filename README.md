# keedio file tailer — a verified model of its two tailing engines

The keedio file tailer follows a growing text file, the way `tail -f` does, and
hands it to a listener:

- It reads whatever the file has gained since the last poll.
- It keeps appending the lines it reads to a buffer until the listener's
  `isValid` accepts the accumulated text as a record. The record is then
  delivered with `handle`.
- When the file is rotated (shrunk or re-created), it tells the listener with
  `rotated`. The listener may name the archived file. The tailer then reads the
  part of that archive it had not consumed yet, and reopens the tailed path
  from the start.

The repository has two engines, and they differ in the details. Each one is
modelled on its own:

- `com.keedio.tailer.LRTailer`, the newer engine, has `stop()`. Its
  rotation test needs the file to be shorter AND newly created. Its pending
  buffer survives across polls and is carried into the catch-up of the
  archived file. `handle` gets the whole accumulated record together with
  the path.
- `com.keedio.Tailer`, the older engine, has no way to stop. Its rotation test
  needs the file to be shorter OR newly created. It starts a new buffer on
  every poll, so partial lines are dropped between polls. `handle` gets only
  the chunk that completed the record. Its catch-up reads the archive from
  `lastFullLinePosition` with an empty buffer. It refuses a null listener
  with an IllegalStateException. A file that disappears makes it reopen
  silently.

## How the model is built

**The operating system becomes an input.** One handleFile call sees an
`Epoch`:

- whether the file can be opened;
- what the creation-time probe reads;
- the polls of its loop.

Each `Poll` gives:

- the stop flag (LRTailer only);
- the creation-time readings;
- `file.length()`;
- the archived files that exist, by name;
- the chunks `readLine` returns before it returns null;
- whether `readLine` then fails.

`readLine`'s splitting of an archive into lines follows BufferedReader: a line
ends at `'\n'`, `'\r'` or `"\r\n"` (`FileIo.Lines`). `Reader.skip` stops at
the end of the text (`FileIo.Skip`).

**The listener becomes data.** It is a value: `valid`, the set of texts
`isValid` accepts, and `rotated`, the name it returns for each position (absent
means null). Every listener call is recorded in a ghost `trace`. Because
`rotated` is a map keyed on the positions it is passed, the model cannot
express a listener that names different archives for two rotations at equal
positions, or whose answers change over time.

**Each class is proved against a specification function.**
- Both classes keep the source's fields, and their methods update them in place.
- Each method is proved against a function of the old state: `Drain` for the
  `readLine` loop, `Reread` for the catch-up loop, `PollStep` for one
  iteration, `Tail` for handleFile's loop, `HandleFileSpec` and `RunSpec`.
- The lemmas then state what those functions promise.
- Both engines' buffer loops are connected by lemmas to one shared fold,
  `Accumulation.Accumulate`, and the general facts about deliveries are
  proved once, about that fold.

**Position arithmetic is kept as the code writes it.**

- Neither engine resets `lastFullLinePosition` on a rotation; only
  `position` is set to 0 (LRTailer.java:242, Tailer.java:106). So after a
  rotation `lastFullLinePosition` may exceed `position`. If no record is
  delivered from the new file before the next rotation, the stale value is
  still there when that catch-up starts. Tailer skips the stale value
  itself (Tailer.java:72-75). LRTailer skips
  `max(lastFullLinePosition, position)` (LRTailer.java:131-136), so the
  stale value decides only when it exceeds the new file's `position`. The
  first delivery from the new file sets `lastFullLinePosition` to the new,
  smaller `position`, and the stale value is gone.
- `position` is not the offset in the file. Each chunk readLine returns adds
  its length plus one for a terminator (LRTailer.java:186, Tailer.java:118).
  A "\r\n" terminator is two characters, so `position` falls behind. A
  chunk returned at the end of the file before its line is complete has no
  terminator yet, so `position` runs ahead, by one per such chunk. The
  catch-up skips by these positions (LRTailer.java:131-136), so LRTailer
  can skip archived text it never delivered, although it means to finish
  the partly read line. `LRTailerProperties.PartialChunkDrift` shows this
  on one input: "abcdef" read as "abc" then "def" leaves `position` at 8,
  and the catch-up over the archived "abcdef\nXYZ\n" then starts after the
  'X'. The model keeps this arithmetic and does not correct it.

## Model

| member | source | states |
|---|---|---|
| FileIo.Max | src/main/java/com/keedio/tailer/LRTailer.java:131 | Math.max of the two positions: at least both, and equal to one of them |
| FileIo.Skip | src/main/java/com/keedio/tailer/LRTailer.java:136 | Reader.skip(n) drops the first n characters, or all of them when fewer remain; what is left is a suffix |
| FileIo.LineEnd | src/main/java/com/keedio/tailer/LRTailer.java:142 | the end of the line readLine returns lies between its start and the end of the text |
| FileIo.LineEndStops | src/main/java/com/keedio/tailer/LRTailer.java:142 | that line holds no '\n' or '\r' and stops at one unless the text ends first |
| FileIo.LinesHoldNoTerminator | src/main/java/com/keedio/Tailer.java:80 | no line readLine returns contains a terminator |
| Accumulation.Accumulate | src/main/java/com/keedio/tailer/LRTailer.java:182-196 | the buffer loop shared by both engines: every delivery is completed by a chunk actually read |
| Accumulation.CutsInOrder | src/main/java/com/keedio/tailer/LRTailer.java:182-196 | deliveries happen in reading order, at most one per chunk |
| Accumulation.DeliveriesAreValid | src/main/java/com/keedio/tailer/LRTailer.java:183-194 | every delivered text was accepted by isValid and ends with the chunk whose append completed it |
| Accumulation.AdvanceCountsTerminators | src/main/java/com/keedio/tailer/LRTailer.java:186 | position advances by the characters read plus one terminator per chunk |
| Accumulation.AdvancePrefix | src/main/java/com/keedio/tailer/LRTailer.java:186 | reading more chunks never moves the position back |
| Accumulation.NoTextLost | src/main/java/com/keedio/tailer/LRTailer.java:182-196 | the delivered records followed by the buffer are exactly the seed buffer followed by every chunk read |
| Accumulation.BufferHoldsUndelivered | src/main/java/com/keedio/tailer/LRTailer.java:188-195 | the buffer holds exactly the text after the last delivery, and is empty right after one |
| Accumulation.NeverValidNeverDelivers | src/main/java/com/keedio/tailer/LRTailer.java:190 | if isValid accepts nothing, nothing is delivered and everything stays buffered |
| Accumulation.CutsGrow | src/main/java/com/keedio/tailer/LRTailer.java:182-196 | deliveries are never revised by later reads; later ones come from later chunks |
| Accumulation.DeliveredExactlyWhenValid | src/main/java/com/keedio/tailer/LRTailer.java:190-195 | chunk k completes a delivery if and only if isValid accepts the accumulation at that point |
| LRTailerSpec.AttemptOutcome | src/main/java/com/keedio/tailer/LRTailer.java:256-278 | getCreationTime: the first non-missing reading decides; NoSuchFileException if and only if all three readings find the file missing; IOException if and only if an unreadable reading comes first |
| LRTailerSpec.RoundKeeps | src/main/java/com/keedio/tailer/LRTailer.java:171-207 | one pass of handleFile's loop body: the loop's report is the callbacks so far followed by the rest of the loop, or the loop ends with a reopen or with handleException and an exception |
| LRTailerEngine.LRTailer.constructor | src/main/java/com/keedio/tailer/LRTailer.java:68-73 | positions start at 0, `run` is set, and listener.init is the only callback |
| LRTailerEngine.LRTailer.Stop | src/main/java/com/keedio/tailer/LRTailer.java:78-80 | clears `run` and changes nothing else |
| LRTailerEngine.LRTailer.Run | src/main/java/com/keedio/tailer/LRTailer.java:86-100 | equals RunSpec; an absent file gives notExists and FileNotFoundException with nothing read; after stop() it returns without a callback |
| LRTailerEngine.LRTailer.RunOnce | src/main/java/com/keedio/tailer/LRTailer.java:95-99 | one pass of `while (reopen && run)` keeps the loop invariant against RunLoop |
| LRTailerEngine.LRTailer.HandleFile | src/main/java/com/keedio/tailer/LRTailer.java:164-216 | equals HandleFileSpec; creationTime is the one read at open; `run` is cleared exactly when it ends because of stop() |
| LRTailerEngine.LRTailer.PollLoop | src/main/java/com/keedio/tailer/LRTailer.java:170-207 | the `while (run)` loop with its buffer equals Tail |
| LRTailerEngine.LRTailer.Iteration | src/main/java/com/keedio/tailer/LRTailer.java:171-206 | one loop pass keeps the invariant against Tail; NoSuchFileException continues the loop, any other exception is reported and thrown |
| LRTailerEngine.LRTailer.PollOnce | src/main/java/com/keedio/tailer/LRTailer.java:175-196 | the loop body's effect on the positions, the buffer and the callbacks equals PollStep |
| LRTailerEngine.LRTailer.ReadAvailable | src/main/java/com/keedio/tailer/LRTailer.java:182-196 | the readLine loop equals Drain from the pending buffer |
| LRTailerEngine.LRTailer.CheckRotateCondition | src/main/java/com/keedio/tailer/LRTailer.java:234-247 | on a rotation: rotated(lastFull, position), then the catch-up, then position 0; otherwise nothing changes |
| LRTailerEngine.LRTailer.HandleRotatedFile | src/main/java/com/keedio/tailer/LRTailer.java:113-153 | the callbacks are exactly CatchUp; neither position changes |
| LRTailerEngine.LRTailer.GetCreationTime | src/main/java/com/keedio/tailer/LRTailer.java:256-278 | the retry loop returns CreationTime of the readings |
| LRTailerProperties.DrainFollowsAccumulate | src/main/java/com/keedio/tailer/LRTailer.java:182-196 | the readLine loop is the shared fold from the pending buffer; position moves by Advance; lastFullLinePosition is the position after the last delivery; handle gets the path and the whole record |
| LRTailerProperties.DrainAdvances | src/main/java/com/keedio/tailer/LRTailer.java:186 | position grows by the characters read plus one per chunk |
| LRTailerProperties.DrainDelivers | src/main/java/com/keedio/tailer/LRTailer.java:190-194 | every callback is handle(path, valid record); lastFullLinePosition moves only on a delivery, past the old position and not beyond the new one |
| LRTailerProperties.DrainKeepsText | src/main/java/com/keedio/tailer/LRTailer.java:182-196 | the handled records plus the remaining buffer spell exactly the old buffer plus the chunks |
| LRTailerProperties.DrainDeliversExactlyWhenValid | src/main/java/com/keedio/tailer/LRTailer.java:190-195 | chunk k produces handle if and only if isValid accepts the accumulation, and then the buffer empties and lastFullLinePosition catches up |
| LRTailerProperties.DrainNeverValid | src/main/java/com/keedio/tailer/LRTailer.java:190 | if isValid accepts nothing, there is no handle and everything stays buffered |
| LRTailerProperties.RereadFollowsAccumulate | src/main/java/com/keedio/tailer/LRTailer.java:139-151 | the catch-up loop is the shared fold from the pending buffer, handing over the completing chunk |
| LRTailerProperties.CatchUpShape | src/main/java/com/keedio/tailer/LRTailer.java:113-153 | nothing for a null name or an absent file; otherwise it skips max(lastFull, position) and continues the pending buffer, delivering only completing chunks of valid accumulations |
| LRTailerProperties.RereadHandles | src/main/java/com/keedio/tailer/LRTailer.java:142-148 | the catch-up only calls handle, against the archive's name, and never if isValid accepts nothing |
| LRTailerProperties.PartialChunkDrift | src/main/java/com/keedio/tailer/LRTailer.java:131-136 | on one input, as written: two partial chunks put `position` one past the text read plus its terminator, and the catch-up that skips by it loses an archived character |
| LRTailerProperties.RotationStep | src/main/java/com/keedio/tailer/LRTailer.java:234-247 | a rotation happens if and only if the creation time reads and the file is shorter by more than one AND newer; rotated(lastFull, position) comes first and only once, the catch-up follows, and position becomes 0 |
| LRTailerProperties.ProbeFailureStep | src/main/java/com/keedio/tailer/LRTailer.java:199-213 | a failed probe changes nothing; NoSuchFileException continues the loop, any other failure is fatal |
| LRTailerProperties.PollStepKeepsText | src/main/java/com/keedio/tailer/LRTailer.java:175-196 | one iteration keeps the text: handled records plus buffer are the old buffer plus the chunks consumed |
| LRTailerProperties.TailKeepsText | src/main/java/com/keedio/tailer/LRTailer.java:170-207 | across the whole loop, no text read is lost or handled twice |
| LRTailerProperties.HandleFileKeepsText | src/main/java/com/keedio/tailer/LRTailer.java:164-216 | from the empty buffer of handleFile, handled records plus the buffer are exactly the chunks consumed |
| LRTailerProperties.TailRotations | src/main/java/com/keedio/tailer/LRTailer.java:175-178 | handleFile's loop calls rotated once exactly when it ends asking for a reopen |
| LRTailerProperties.TailExceptions | src/main/java/com/keedio/tailer/LRTailer.java:209-213 | handleException is called once exactly when the loop throws, last, with the thrown cause; there are no other kinds of callback |
| LRTailerProperties.StepCallbacks | src/main/java/com/keedio/tailer/LRTailer.java:175-196 | one iteration calls rotated once exactly on a rotation, never handleException, and otherwise only handle |
| LRTailerProperties.HandleFileCallbacks | src/main/java/com/keedio/tailer/LRTailer.java:164-216 | handleFile calls rotated once if and only if it returns true; handleException once if and only if it throws, last |
| LRTailerProperties.RunLoopCallbacks | src/main/java/com/keedio/tailer/LRTailer.java:93-99 | run() returns normally if and only if `run` was cleared; when it throws, handleException was the last callback, called once |
| LRTailerProperties.RunNotExists | src/main/java/com/keedio/tailer/LRTailer.java:88-91 | an absent file gives exactly notExists and FileNotFoundException; otherwise notExists is never called |
| LRTailerProperties.TailNeverValid | src/main/java/com/keedio/tailer/LRTailer.java:190 | if isValid accepts nothing, handleFile's loop never calls handle |
| LRTailerProperties.RunNeverValid | src/main/java/com/keedio/tailer/LRTailer.java:95-99 | if isValid accepts nothing, run() never calls handle |
| TailerSpec.RoundKeeps | src/main/java/com/keedio/Tailer.java:98-129 | one pass of the `while (true)` body: the loop's report is the callbacks so far followed by the rest of the loop, or it ends with a reopen (rotation or vanished file) or with handleException and an exception |
| TailerEngine.Tailer.constructor | src/main/java/com/keedio/Tailer.java:30-34 | stores the listener, which may be null, and the name; positions are 0; no callback |
| TailerEngine.Tailer.Run | src/main/java/com/keedio/Tailer.java:37-57 | equals RunSpec; a null listener gives IllegalStateException with no callback; an absent file gives notExists and FileNotFoundException |
| TailerEngine.Tailer.HandleFile | src/main/java/com/keedio/Tailer.java:93-138 | equals HandleFileSpec; creationTime is the one read at open |
| TailerEngine.Tailer.PollLoop | src/main/java/com/keedio/Tailer.java:98-129 | the `while (true)` loop equals Tail |
| TailerEngine.Tailer.Iteration | src/main/java/com/keedio/Tailer.java:98-136 | one loop pass keeps the invariant against Tail; a vanished file returns true, any other exception is reported and thrown |
| TailerEngine.Tailer.PollOnce | src/main/java/com/keedio/Tailer.java:100-126 | the loop body's effect on the positions and the callbacks equals PollStep |
| TailerEngine.Tailer.ActOnCreationTime | src/main/java/com/keedio/Tailer.java:102-126 | the loop body once the creation time is read, given that reading: the OR rotation test, or the readLine loop over a new buffer, with the effect PollStep gives |
| TailerEngine.Tailer.ReadAvailable | src/main/java/com/keedio/Tailer.java:111-126 | the readLine loop over a fresh buffer equals Drain |
| TailerEngine.Tailer.HandleRotatedFile | src/main/java/com/keedio/Tailer.java:59-91 | the callbacks are exactly CatchUp from lastFullLinePosition; neither position changes |
| TailerEngine.Tailer.GetCreationTime | src/main/java/com/keedio/Tailer.java:140-146 | one attribute read with no retry: a creation time exactly when the attributes can be read, and then the time read; NoSuchFileException exactly when the file is missing, IOException exactly when it is unreadable |
| TailerProperties.DrainFollowsAccumulate | src/main/java/com/keedio/Tailer.java:111-126 | the readLine loop is the shared fold from an empty buffer; position moves by Advance; lastFullLinePosition is the position after the last delivery; handle gets the completing chunk |
| TailerProperties.DrainDelivers | src/main/java/com/keedio/Tailer.java:114-126 | each chunk adds its length plus one; every delivery is a valid accumulation completed by its chunk; records plus the dropped buffer are exactly this poll's chunks |
| TailerProperties.DrainIgnoresHistory | src/main/java/com/keedio/Tailer.java:112 | no joining across polls: a poll's callbacks and buffer do not depend on earlier polls, and the positions move by the same amount |
| TailerProperties.DrainNeverValid | src/main/java/com/keedio/Tailer.java:120 | if isValid accepts nothing, there is no handle and lastFullLinePosition stays put |
| TailerProperties.DrainHandles | src/main/java/com/keedio/Tailer.java:120-121 | the readLine loop only calls handle |
| TailerProperties.RereadFollowsAccumulate | src/main/java/com/keedio/Tailer.java:78-89 | the catch-up loop is the shared fold from an empty buffer, handing over the completing chunk |
| TailerProperties.CatchUpShape | src/main/java/com/keedio/Tailer.java:59-91 | nothing for a null name or an absent file; otherwise it skips lastFullLinePosition characters and delivers only completing chunks of valid accumulations |
| TailerProperties.RereadHandles | src/main/java/com/keedio/Tailer.java:80-86 | the catch-up only calls handle, and never if isValid accepts nothing |
| TailerProperties.RotationStep | src/main/java/com/keedio/Tailer.java:100-109 | a rotation happens if and only if the creation time reads and the file is shorter by more than one OR newer; rotated(lastFull) comes first and only once, the catch-up follows, and position becomes 0 |
| TailerProperties.ProbeFailureStep | src/main/java/com/keedio/Tailer.java:131-136 | a failed probe changes nothing; a vanished file means reopen, an unreadable one is fatal |
| TailerProperties.StepCallbacks | src/main/java/com/keedio/Tailer.java:100-126 | one iteration calls rotated once exactly on a rotation, never handleException, and otherwise only handle |
| TailerProperties.TailRotations | src/main/java/com/keedio/Tailer.java:100-109 | handleFile's loop calls rotated at most once, and only when it ends with a reopen |
| TailerProperties.TailExceptions | src/main/java/com/keedio/Tailer.java:133-136 | handleException is called once if and only if the loop throws, last, with the thrown cause; there are no other kinds of callback besides handle and rotated |
| TailerProperties.HandleFileCallbacks | src/main/java/com/keedio/Tailer.java:93-138 | the same counts for the whole of handleFile, including an open that fails |
| TailerProperties.RunLoopCallbacks | src/main/java/com/keedio/Tailer.java:50-56 | run()'s loop never returns normally; when it throws, handleException was the last callback, called once |
| TailerProperties.RunEndings | src/main/java/com/keedio/Tailer.java:37-57 | run() never returns normally; a null listener is refused before any callback; an absent file gives exactly notExists; otherwise notExists never happens |
| TailerProperties.UnopenableFile | src/test/java/com/keedio/SlowDataGeneratorTailerTest.java:91-112 | a path that exists but cannot be opened gives one handleException, then FileNotFoundException, and no rotated |
| TailerProperties.TailNeverValid | src/test/java/com/keedio/SlowDataGeneratorTailerTest.java:114-142 | if isValid accepts nothing, handleFile's loop never calls handle |
| TailerProperties.RunNeverValid | src/main/java/com/keedio/Tailer.java:50-56 | if isValid accepts nothing, run() never calls handle |

## Left out

- Sleeping (`sleepSilently`, `sleepTime`, the 100 ms pause between retries) is left out. Time passing only changes what the next poll sees, and that is already an input.
- Real file I/O is left out. `File.exists`, `FileReader`, `Files.readAttributes`, `file.length()` and what `readLine` returns are all inputs. Chunks read from the tailed file are taken as given; only archived files are split into lines by the model.
- Tailer loops until it throws; LRTailer loops until stop() or an exception. The model runs over finite inputs, and its `Tailing` and `Running` outcomes mean the inputs ran out while the loop was still going.
- stop() from another thread is left out. It is modelled as a `stop` flag that takes effect just before each test of `run`; other interleavings are not modelled. `run` is a plain field, not `volatile` (LRTailer.java:59), so Java does not guarantee that the tailing thread ever sees another thread's stop(); the model assumes it is seen at the next test.
- No member claims that `position` equals the offset in the file. It drifts behind on "\r\n" and ahead on every partial chunk read at the end of the file, as described above.
- Positions agree with the source only on text inside the Basic Multilingual Plane. Java's `String.length()` and `Reader.skip` count UTF-16 code units, whereas a Dafny `string` counts Unicode scalar values, so a character outside that plane moves Java's position by 2 and the model's by 1.
- Exceptions from reading the archived file are not modelled: the catch-up always reads the archive completely.
- Exceptions thrown by listener callbacks, and the null dereference in LRTailer's constructor when the listener is null, are left out.
- Absolute-path resolution is left out: the LRTailer path is the name given to the constructor.
- Logging is left out.
- `getTailedFile` and the listener implementations under `listener/impl` are not part of this model.
- Nothing is left out for `rotatedPosition`: both catch-up loops advance this counter but never read it, and both models keep it as written.
- The stale `lastFullLinePosition` after a rotation is reproduced, not corrected: no member claims `lastFullLinePosition <= position`, because it does not hold after a rotation.
