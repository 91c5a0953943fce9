/** Values that stand in for the Java runtime both tailing engines talk to:
    nullable references, the exceptions they throw and catch, the outcome of
    one attribute read, and a reader that skips characters. */
module FileIo {

  /** A Java reference that may be null. */
  datatype Option<T> = None | Some(value: T)

  /** The cause of an exception an engine raises or catches. */
  datatype Failure =
    | IllegalState   // IllegalStateException: the listener is null
    | FileNotFound   // java.io.FileNotFoundException: absent at start, or FileReader cannot open the path
    | NoSuchFile     // java.nio.file.NoSuchFileException: the file vanished under Files.readAttributes
    | IoError        // any other IOException (a failing readLine, unreadable attributes)

  /** A value, or the exception thrown instead of returning it. */
  datatype Result<T> = Ok(value: T) | Err(cause: Failure)

  /** What one call of Files.readAttributes on the tailed path yields. */
  datatype Attr =
    | Created(millis: int)  // the creation time, in milliseconds
    | Missing               // it throws NoSuchFileException
    | Unreadable            // it throws another IOException

  function Max(a: nat, b: nat): (m: nat)
    ensures m >= a && m >= b && (m == a || m == b)
  {
    if a < b then b else a
  }

  /** What is left of `text` after Reader.skip(n): skipping stops at the end of the text. */
  function Skip(text: string, n: nat): (rest: string)
    ensures |rest| == if n <= |text| then |text| - n else 0
    ensures rest == text[|text| - |rest|..]
  {
    if n <= |text| then text[n..] else ""
  }

  /** Where the line that starts at `from` ends: at the first '\n' or '\r'
      from there on, or at the end of the text. */
  function LineEnd(text: string, from: nat): (e: nat)
    requires from <= |text|
    ensures from <= e <= |text|
    decreases |text| - from
  {
    if from == |text| || text[from] == '\n' || text[from] == '\r' then from else LineEnd(text, from + 1)
  }

  /** The line found by LineEnd holds no terminator, and it stops at one
      unless the text ends first. */
  lemma {:induction false} LineEndStops(text: string, from: nat)
    requires from <= |text|
    ensures var e := LineEnd(text, from);
      (forall j :: from <= j < e ==> text[j] != '\n' && text[j] != '\r') &&
      (e < |text| ==> text[e] == '\n' || text[e] == '\r')
    decreases |text| - from
  {
    if from < |text| && text[from] != '\n' && text[from] != '\r' {
      LineEndStops(text, from + 1);
    }
  }

  /** The lines successive BufferedReader.readLine calls return on `text`
      before they return null: a line ends at '\n', '\r' or "\r\n", which
      it does not include, and a last line without a terminator is
      returned as it stands. */
  function Lines(text: string): (lines: seq<string>)
    decreases |text|
  {
    if text == "" then []
    else
      var e := LineEnd(text, 0);
      var next := if e + 1 < |text| && text[e] == '\r' && text[e + 1] == '\n' then e + 2 else e + 1;
      [text[..e]] + (if next <= |text| then Lines(text[next..]) else [])
  }

  /** readLine never returns a terminator as part of a line. */
  lemma {:induction false} LinesHoldNoTerminator(text: string)
    ensures forall line <- Lines(text) :: '\n' !in line && '\r' !in line
    decreases |text|
  {
    if text != "" {
      var e := LineEnd(text, 0);
      LineEndStops(text, 0);
      var next := if e + 1 < |text| && text[e] == '\r' && text[e + 1] == '\n' then e + 2 else e + 1;
      if next <= |text| {
        LinesHoldNoTerminator(text[next..]);
      }
    }
  }
}
