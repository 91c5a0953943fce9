/** The StringBuffer loop both engines run over the chunks readLine returns:
    append the chunk, ask the listener's isValid whether the accumulated
    text is a record, and if so deliver it and start an empty buffer. The
    texts isValid accepts are the set `valid`. The fold below
    is the specification the engines' loops are proved against; the position
    arithmetic that runs beside it is `Advance`. */
module Accumulation {

  /** The strings of `ss` written one after the other. */
  function Concat(ss: seq<string>): string
  {
    if ss == [] then "" else Concat(ss[..|ss| - 1]) + ss[|ss| - 1]
  }

  /** How far `position` moves over `chunks`: each chunk counts its length
      plus one for the line terminator readLine stripped, whether or not
      the chunk was a complete line. */
  function Advance(chunks: seq<string>): nat
  {
    if chunks == [] then 0 else Advance(chunks[..|chunks| - 1]) + |chunks[|chunks| - 1]| + 1
  }

  /** How many elements of `s` satisfy `p`. */
  function Count<T>(s: seq<T>, p: T -> bool): nat
  {
    if s == [] then 0 else Count(s[..|s| - 1], p) + (if p(s[|s| - 1]) then 1 else 0)
  }

  /** A delivery: the accumulated text isValid accepted, the chunk whose
      append completed it, and how many chunks had been read at that point. */
  datatype Cut = Cut(accumulated: string, last: string, upto: nat)

  /** The buffer left over and the deliveries made, in order. */
  datatype Scan = Scan(buffer: string, cuts: seq<Cut>)

  predicate EndsWith(s: string, suffix: string)
  {
    |suffix| <= |s| && s[|s| - |suffix|..] == suffix
  }

  /** The buffer loop over `chunks`, starting from a buffer holding `seed`. */
  function Accumulate(valid: iset<string>, seed: string, chunks: seq<string>): (s: Scan)
    ensures forall k :: 0 <= k < |s.cuts| ==> 0 < s.cuts[k].upto <= |chunks|
  {
    if chunks == [] then Scan(seed, [])
    else
      var prev := Accumulate(valid, seed, chunks[..|chunks| - 1]);
      var line := chunks[|chunks| - 1];
      var acc := prev.buffer + line;
      if acc in valid then Scan("", prev.cuts + [Cut(acc, line, |chunks|)]) else Scan(acc, prev.cuts)
  }

  /** Deliveries happen in reading order, at most one per chunk read. */
  lemma {:induction false} CutsInOrder(valid: iset<string>, seed: string, chunks: seq<string>)
    ensures var cuts := Accumulate(valid, seed, chunks).cuts;
      forall j, k :: 0 <= j < k < |cuts| ==> cuts[j].upto < cuts[k].upto
    decreases |chunks|
  {
    if chunks != [] {
      var init := chunks[..|chunks| - 1];
      CutsInOrder(valid, seed, init);
      assert var c := Accumulate(valid, seed, init).cuts; forall j, k :: 0 <= j < k < |c| ==> c[j].upto < c[k].upto;
      var prev := Accumulate(valid, seed, init).cuts;
      var cuts := Accumulate(valid, seed, chunks).cuts;
      assert prev <= cuts;
      forall j, k | 0 <= j < k < |cuts|
        ensures cuts[j].upto < cuts[k].upto
      {
        if k < |prev| {
          assert cuts[j] == prev[j] && cuts[k] == prev[k];
        } else {
          var last := Accumulate(valid, seed, init).buffer + chunks[|chunks| - 1];
          assert last in valid && cuts == prev + [Cut(last, chunks[|chunks| - 1], |chunks|)];
          assert k == |prev| && cuts[k].upto == |chunks|;
          assert cuts[j] == prev[j] && prev[j].upto <= |init|;
        }
      }
    }
  }

  /** Every delivery was accepted by isValid and ends with the chunk whose
      append completed it. */
  lemma {:induction false} DeliveriesAreValid(valid: iset<string>, seed: string, chunks: seq<string>)
    ensures forall cut <- Accumulate(valid, seed, chunks).cuts ::
      cut.last == chunks[cut.upto - 1] && cut.accumulated in valid && EndsWith(cut.accumulated, cut.last)
    decreases |chunks|
  {
    if chunks != [] {
      var init, line := chunks[..|chunks| - 1], chunks[|chunks| - 1];
      DeliveriesAreValid(valid, seed, init);
      var prev := Accumulate(valid, seed, init);
      var acc := prev.buffer + line;
      assert acc[|acc| - |line|..] == line;
      forall cut <- prev.cuts
        ensures cut.last == chunks[cut.upto - 1]
      {
        assert init[cut.upto - 1] == chunks[cut.upto - 1];
      }
    }
  }

  /** The texts delivered, in order. */
  function Records(cuts: seq<Cut>): seq<string>
  {
    seq(|cuts|, i requires 0 <= i < |cuts| => cuts[i].accumulated)
  }

  /** How many chunks had been read at the last delivery, 0 if none. */
  function LastUpto(cuts: seq<Cut>): nat
  {
    if cuts == [] then 0 else cuts[|cuts| - 1].upto
  }

  lemma Associative(a: string, b: string, c: string)
    ensures (a + b) + c == a + (b + c)
  {
  }

  lemma ConcatSnoc(ss: seq<string>, s: string)
    ensures Concat(ss + [s]) == Concat(ss) + s
  {
    assert (ss + [s])[..|ss|] == ss;
  }

  lemma {:induction false} ConcatAppend(a: seq<string>, b: seq<string>)
    ensures Concat(a + b) == Concat(a) + Concat(b)
    decreases |b|
  {
    if b != [] {
      var init := b[..|b| - 1];
      assert a + b == (a + init) + [b[|b| - 1]];
      assert b == init + [b[|b| - 1]];
      ConcatSnoc(a + init, b[|b| - 1]);
      ConcatSnoc(init, b[|b| - 1]);
      ConcatAppend(a, init);
    } else {
      assert a + b == a;
    }
  }

  lemma {:induction false} AdvanceAppend(a: seq<string>, b: seq<string>)
    ensures Advance(a + b) == Advance(a) + Advance(b)
    decreases |b|
  {
    if b != [] {
      var init := b[..|b| - 1];
      assert (a + b)[..|a + b| - 1] == a + init;
      assert (a + b)[|a + b| - 1] == b[|b| - 1];
      AdvanceAppend(a, init);
    } else {
      assert a + b == a;
    }
  }

  /** `position` advances by the characters read plus one terminator per chunk. */
  lemma {:induction false} AdvanceCountsTerminators(chunks: seq<string>)
    ensures Advance(chunks) == |Concat(chunks)| + |chunks|
    decreases |chunks|
  {
    if chunks != [] {
      AdvanceCountsTerminators(chunks[..|chunks| - 1]);
    }
  }

  /** Reading more chunks never moves the position back. */
  lemma {:induction false} AdvancePrefix(chunks: seq<string>, n: nat)
    requires n <= |chunks|
    ensures Advance(chunks[..n]) <= Advance(chunks)
  {
    assert chunks == chunks[..n] + chunks[n..];
    AdvanceAppend(chunks[..n], chunks[n..]);
  }

  /** Nothing is counted when no element satisfies `p`. */
  lemma {:induction false} CountNone<T>(s: seq<T>, p: T -> bool)
    requires forall x <- s :: !p(x)
    ensures Count(s, p) == 0
    decreases |s|
  {
    if s != [] {
      var init := s[..|s| - 1];
      assert forall x <- init :: x in s;
      CountNone(init, p);
      assert s[|s| - 1] in s;
    }
  }

  lemma {:induction false} CountAppend<T>(a: seq<T>, b: seq<T>, p: T -> bool)
    ensures Count(a + b, p) == Count(a, p) + Count(b, p)
    decreases |b|
  {
    if b != [] {
      var init := b[..|b| - 1];
      assert (a + b)[..|a + b| - 1] == a + init;
      assert (a + b)[|a + b| - 1] == b[|b| - 1];
      CountAppend(a, init, p);
    } else {
      assert a + b == a;
    }
  }

  /** No text is lost or duplicated: the delivered records followed by the
      buffer are exactly the seed followed by every chunk read. */
  lemma {:induction false} NoTextLost(valid: iset<string>, seed: string, chunks: seq<string>)
    ensures var s := Accumulate(valid, seed, chunks);
      Concat(Records(s.cuts)) + s.buffer == seed + Concat(chunks)
    decreases |chunks|
  {
    if chunks != [] {
      var init, line := chunks[..|chunks| - 1], chunks[|chunks| - 1];
      NoTextLost(valid, seed, init);
      var prev := Accumulate(valid, seed, init);
      var acc := prev.buffer + line;
      var delivered := Concat(Records(prev.cuts));
      assert delivered + prev.buffer == seed + Concat(init);
      Associative(delivered, prev.buffer, line);
      Associative(seed, Concat(init), line);
      assert delivered + acc == seed + Concat(chunks);
      if acc in valid {
        assert Records(prev.cuts + [Cut(acc, line, |chunks|)]) == Records(prev.cuts) + [acc];
        ConcatSnoc(Records(prev.cuts), acc);
        assert Concat(Records(prev.cuts) + [acc]) + "" == delivered + acc;
      }
    }
  }

  /** The buffer holds exactly the text not yet delivered: the seed and all
      chunks when nothing was delivered, otherwise the chunks after the last
      delivery (so it is empty right after one). */
  lemma {:induction false} BufferHoldsUndelivered(valid: iset<string>, seed: string, chunks: seq<string>)
    ensures var s := Accumulate(valid, seed, chunks);
      LastUpto(s.cuts) <= |chunks| &&
      s.buffer == (if s.cuts == [] then seed else "") + Concat(chunks[LastUpto(s.cuts)..])
    decreases |chunks|
  {
    if chunks != [] {
      var init, line := chunks[..|chunks| - 1], chunks[|chunks| - 1];
      BufferHoldsUndelivered(valid, seed, init);
      var prev := Accumulate(valid, seed, init);
      var u := LastUpto(prev.cuts);
      if prev.buffer + line in valid {
        assert chunks[|chunks|..] == [];
      } else {
        var pre: string := if prev.cuts == [] then seed else "";
        assert prev.buffer == pre + Concat(init[u..]);
        assert chunks[u..] == init[u..] + [line];
        ConcatSnoc(init[u..], line);
        Associative(pre, Concat(init[u..]), line);
      }
    }
  }

  /** If isValid accepts nothing, nothing is delivered and every chunk stays buffered. */
  lemma {:induction false} NeverValidNeverDelivers(valid: iset<string>, seed: string, chunks: seq<string>)
    requires valid == iset{}
    ensures Accumulate(valid, seed, chunks) == Scan(seed + Concat(chunks), [])
    decreases |chunks|
  {
    if chunks != [] {
      NeverValidNeverDelivers(valid, seed, chunks[..|chunks| - 1]);
    }
  }

  /** Deliveries made over a prefix of the chunks are never revised, and
      every later delivery was completed by a later chunk. */
  lemma {:induction false} CutsGrow(valid: iset<string>, seed: string, chunks: seq<string>, n: nat)
    requires n <= |chunks|
    ensures var early := Accumulate(valid, seed, chunks[..n]).cuts;
      var cuts := Accumulate(valid, seed, chunks).cuts;
      early <= cuts && forall j :: |early| <= j < |cuts| ==> cuts[j].upto > n
    decreases |chunks|
  {
    if n < |chunks| {
      var init := chunks[..|chunks| - 1];
      assert init[..n] == chunks[..n];
      CutsGrow(valid, seed, init, n);
    } else {
      assert chunks[..n] == chunks;
    }
  }

  /** A record is delivered when chunk k is appended exactly when isValid
      accepts the text accumulated at that point. */
  lemma DeliveredExactlyWhenValid(valid: iset<string>, seed: string, chunks: seq<string>, k: nat)
    requires k < |chunks|
    ensures var acc := Accumulate(valid, seed, chunks[..k]).buffer + chunks[k];
      var cuts := Accumulate(valid, seed, chunks).cuts;
      acc in valid <==> exists j :: 0 <= j < |cuts| && cuts[j] == Cut(acc, chunks[k], k + 1)
  {
    var before := Accumulate(valid, seed, chunks[..k]);
    var acc := before.buffer + chunks[k];
    var cuts := Accumulate(valid, seed, chunks).cuts;
    assert chunks[..k + 1][..k] == chunks[..k];
    var at := Accumulate(valid, seed, chunks[..k + 1]);
    CutsGrow(valid, seed, chunks, k + 1);
    if acc in valid {
      assert at.cuts[|before.cuts|] == Cut(acc, chunks[k], k + 1);
      assert cuts[|before.cuts|] == Cut(acc, chunks[k], k + 1);
    } else {
      assert at.cuts == before.cuts;
      forall j | 0 <= j < |cuts|
        ensures cuts[j].upto != k + 1
      {
        if j < |before.cuts| {
          assert cuts[j] == before.cuts[j];
        }
      }
    }
  }
}
