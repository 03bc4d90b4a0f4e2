/**
  Writes to a standard handle on Windows (`StdHandle`).  A write is carried out by
  a separate thread: `Write` queues a copy of the caller's bytes and acknowledges
  nothing; a later `Write` acknowledges bytes that the thread has written by then.

  The caller's part of the protocol is to submit, each time, from its first byte
  that is not yet acknowledged.  Runs are over streams of anything; in a stream
  without duplicates, such as the positions of another stream, whatever is written
  twice shows.
 */
module StdWrites {
  import opened Bytes
  import opened Sequences

  const BUFFER_SIZE: nat := 64 * 1024
  const INT_MAX: nat := 0x7fff_ffff

  datatype Pending<T> = NoBuffer | Queued(data: seq<T>)

  function Min(a: nat, b: nat): nat {
    if a < b then a else b
  }

  /** What a `Write` of `count` bytes acknowledges. */
  function Acknowledged<T>(threadWrote: nat, pending: Pending<T>, count: nat): (r: nat)
    ensures r <= threadWrote && r <= count
  {
    if pending.Queued? then 0 else Min(Min(count, BUFFER_SIZE), threadWrote)
  }

  // ----- The handle, the writer thread and the completion port

  /**
    The handle together with what has left the process, how much the caller was
    told so, and whether the writer thread has run on the queued buffer.  Buffers
    are numbered as they are queued; a completion on its way carries the number of
    its buffer.
   */
  datatype World<T> = World(threadWrote: nat, pending: Pending<T>, ran: bool, queued: nat, posted: seq<nat>,
                            output: seq<T>, acked: nat, closed: bool)

  function Start<T>(): World<T> {
    World(0, NoBuffer, false, 0, [], [], 0, false)
  }

  function Submitted<T>(w: World<T>, buffer: seq<T>): World<T> {
    var n := Acknowledged(w.threadWrote, w.pending, |buffer|);
    var told := w.(threadWrote := w.threadWrote - n, acked := w.acked + n);
    if w.pending.Queued? || w.threadWrote > 0 then told
    else told.(pending := Queued(buffer[..Min(|buffer|, BUFFER_SIZE)]), queued := w.queued + 1)
  }

  /** A run of the writer thread on the queued buffer. */
  function Ran<T>(w: World<T>, written: nat): World<T>
    requires w.pending.Queued? && written <= |w.pending.data|
  {
    w.(threadWrote := w.threadWrote + written, ran := true, posted := w.posted + [w.queued],
       output := w.output + w.pending.data[..written])
  }

  /** The source asserts that a completion is for the buffer that is queued. */
  predicate FindsItsBuffer<T>(w: World<T>)
    requires w.posted != []
  {
    w.pending.Queued? && w.posted[0] == w.queued
  }

  /** The next completion is handled; whatever buffer is queued is taken for done. */
  function Completed<T>(w: World<T>): World<T>
    requires w.posted != []
  {
    w.(pending := NoBuffer, ran := false, posted := w.posted[1..])
  }

  /** Closing wakes the writer thread, and a thread that wakes writes what is queued. */
  function ClosedAfter<T>(w: World<T>, written: nat): World<T>
    requires w.pending.Queued? ==> written <= |w.pending.data|
  {
    (if w.pending.Queued? then Ran(w, written) else w).(closed := true)
  }

  class StdHandle {
    var threadWrote: nat
    var pendingWrite: Pending<Byte>
    var writeThreadExists: bool
    ghost var world: World<Byte>

    /** The fields are the handle's part of the world, and an open handle has a thread for what is queued. */
    ghost predicate Valid()
      reads this
    {
      && threadWrote == world.threadWrote && pendingWrite == world.pending
      && (pendingWrite.Queued? && !world.closed ==> writeThreadExists)
    }

    constructor ()
      ensures Valid() && world == Start()
    {
      threadWrote, pendingWrite, writeThreadExists := 0, NoBuffer, false;
      world := Start();
    }

    method Write(buffer: seq<Byte>) returns (acknowledged: nat)
      requires Valid()
      modifies this
      ensures Valid() && world == Submitted(old(world), buffer) && acknowledged == world.acked - old(world).acked
    {
      world := Submitted(world, buffer);
      var numBytes := |buffer|;
      if pendingWrite.Queued? {
        return 0;
      }
      if numBytes > BUFFER_SIZE {
        numBytes := BUFFER_SIZE;
      }
      if threadWrote > 0 {
        if numBytes > threadWrote {
          numBytes := threadWrote;
        }
        threadWrote := threadWrote - numBytes;
        return numBytes;
      }
      if !writeThreadExists {
        writeThreadExists := true;
      }
      var truncated := Min(numBytes, INT_MAX);
      pendingWrite := Queued(buffer[..truncated]);
      return 0;
    }

    /** The writer thread runs; the system writes `written` bytes of the buffer, none on failure. */
    method WriteSyncCompleteAsync(written: nat)
      requires Valid() && pendingWrite.Queued? && written <= |pendingWrite.data|
      modifies this`threadWrote, this`world
      ensures Valid() && world == Ran(old(world), written)
    {
      threadWrote := threadWrote + written;
      world := Ran(world, written);
    }

    method WriteComplete()
      requires Valid() && world.posted != [] && FindsItsBuffer(world)
      modifies this`pendingWrite, this`world
      ensures Valid() && world == Completed(old(world))
    {
      pendingWrite := NoBuffer;
      world := Completed(world);
    }

    /** Stops the writer thread, which is woken for that. */
    method DoClose(written: nat)
      requires Valid() && !world.closed && (pendingWrite.Queued? ==> written <= |pendingWrite.data|)
      modifies this
      ensures Valid() && world == ClosedAfter(old(world), written) && !writeThreadExists
    {
      if writeThreadExists {
        if pendingWrite.Queued? {
          WriteSyncCompleteAsync(written);
        }
        writeThreadExists := false;
      }
      world := world.(closed := true);
    }
  }

  // ----- Whole runs

  datatype Step =
    | Submit(count: nat)     // the caller submits its next `count` bytes
    | WriterRuns(written: nat)
    | Completion
    | Close(written: nat)

  predicate Enabled<T>(w: World<T>, stream: seq<T>, s: Step) {
    match s
    case Submit(count) => !w.closed && w.acked + count <= |stream|
    case WriterRuns(written) => !w.closed && w.pending.Queued? && written <= |w.pending.data|
    case Completion => w.posted != []
    case Close(written) => !w.closed && (w.pending.Queued? ==> written <= |w.pending.data|)
  }

  function Next<T>(w: World<T>, stream: seq<T>, s: Step): World<T>
    requires Enabled(w, stream, s)
  {
    match s
    case Submit(count) => Submitted(w, stream[w.acked..w.acked + count])
    case WriterRuns(written) => Ran(w, written)
    case Completion => Completed(w)
    case Close(written) => ClosedAfter(w, written)
  }

  predicate Legal<T>(w: World<T>, stream: seq<T>, steps: seq<Step>)
    decreases |steps|
  {
    steps != [] ==> Enabled(w, stream, steps[0]) && Legal(Next(w, stream, steps[0]), stream, steps[1..])
  }

  function Run<T>(w: World<T>, stream: seq<T>, steps: seq<Step>): World<T>
    requires Legal(w, stream, steps)
    decreases |steps|
  {
    if steps == [] then w else Run(Next(w, stream, steps[0]), stream, steps[1..])
  }

  lemma NoStep<T>(w: World<T>, stream: seq<T>)
    ensures Legal(w, stream, []) && Run(w, stream, []) == w
  {
  }

  lemma OneStep<T>(w: World<T>, stream: seq<T>, s: Step, rest: seq<Step>)
    requires Enabled(w, stream, s) && Legal(Next(w, stream, s), stream, rest)
    ensures Legal(w, stream, [s] + rest) && Run(w, stream, [s] + rest) == Run(Next(w, stream, s), stream, rest)
  {
    assert ([s] + rest)[1..] == rest;
  }

  // ----- What was written

  /** The writer writes on a buffer of which it has written something before. */
  predicate Repeats<T>(w: World<T>, s: Step) {
    (s.WriterRuns? || s.Close?) && w.pending.Queued? && w.threadWrote > 0 && s.written > 0
  }

  /** What was written is the beginning of the stream, and what is queued comes next after what was acknowledged. */
  ghost predicate Inv<T>(w: World<T>, stream: seq<T>) {
    && w.output <= stream && |w.output| == w.acked + w.threadWrote
    && (w.pending.Queued? ==>
          w.acked + |w.pending.data| <= |stream| && w.pending.data == stream[w.acked..w.acked + |w.pending.data|])
  }

  lemma RanInOrder<T>(w: World<T>, stream: seq<T>, written: nat)
    requires Inv(w, stream) && w.pending.Queued? && written <= |w.pending.data| && (w.threadWrote == 0 || written == 0)
    ensures Inv(Ran(w, written), stream)
  {
    var data := w.pending.data;
    assert data[..written] == stream[w.acked..w.acked + written];
    assert w.output == stream[..|w.output|];
    if written == 0 {
      assert w.output + data[..0] == w.output;
    } else {
      assert stream[..w.acked] + stream[w.acked..w.acked + written] == stream[..w.acked + written];
    }
  }

  lemma StepKeepsInv<T>(w: World<T>, stream: seq<T>, s: Step)
    requires Inv(w, stream) && Enabled(w, stream, s) && !Repeats(w, s)
    ensures Inv(Next(w, stream, s), stream)
  {
    if (s.WriterRuns? || s.Close?) && w.pending.Queued? {
      RanInOrder(w, stream, s.written);
    } else if s.Submit? {
      var n := Min(s.count, BUFFER_SIZE);
      assert stream[w.acked..w.acked + s.count][..n] == stream[w.acked..w.acked + n];
    }
  }

  lemma RepeatBreaksOrder<T>(w: World<T>, stream: seq<T>, s: Step)
    requires Inv(w, stream) && Enabled(w, stream, s) && Repeats(w, s) && NoDuplicates(stream)
    ensures !(Next(w, stream, s).output <= stream)
  {
    var output := Next(w, stream, s).output;
    assert output[|w.output|] == w.pending.data[0] == stream[w.acked];
    assert |w.output| < |stream| ==> stream[w.acked] != stream[|w.output|];
  }

  /** What has been written stays written. */
  lemma {:induction false} OutputGrows<T>(w: World<T>, stream: seq<T>, steps: seq<Step>)
    requires Legal(w, stream, steps)
    ensures w.output <= Run(w, stream, steps).output
    decreases |steps|
  {
    if steps != [] {
      OutputGrows(Next(w, stream, steps[0]), stream, steps[1..]);
    }
  }

  predicate RepeatsSomewhere<T>(w: World<T>, stream: seq<T>, steps: seq<Step>)
    requires Legal(w, stream, steps)
    decreases |steps|
  {
    steps != [] && (Repeats(w, steps[0]) || RepeatsSomewhere(Next(w, stream, steps[0]), stream, steps[1..]))
  }

  /**
    In every run in which the writer never writes twice on one buffer, what was
    written is exactly the first `acked + threadWrote` bytes of the stream.
   */
  lemma {:induction false} NothingLostNorRepeated<T>(w: World<T>, stream: seq<T>, steps: seq<Step>)
    requires Inv(w, stream) && Legal(w, stream, steps) && !RepeatsSomewhere(w, stream, steps)
    ensures Inv(Run(w, stream, steps), stream)
    ensures var w' := Run(w, stream, steps);
      w'.acked + w'.threadWrote <= |stream| && w'.output == stream[..w'.acked + w'.threadWrote]
    decreases |steps|
  {
    hide Next, Enabled;
    if steps != [] {
      StepKeepsInv(w, stream, steps[0]);
      NothingLostNorRepeated(Next(w, stream, steps[0]), stream, steps[1..]);
    }
  }

  /** Where the bytes of the stream can be told apart, that condition is exact. */
  lemma {:induction false} InOrderExactly<T>(w: World<T>, stream: seq<T>, steps: seq<Step>)
    requires Inv(w, stream) && Legal(w, stream, steps) && NoDuplicates(stream)
    ensures Run(w, stream, steps).output <= stream <==> !RepeatsSomewhere(w, stream, steps)
    decreases |steps|
  {
    hide Next, Enabled, NoDuplicates, Repeats;
    if steps != [] {
      var w' := Next(w, stream, steps[0]);
      if Repeats(w, steps[0]) {
        RepeatBreaksOrder(w, stream, steps[0]);
        OutputGrows(w', stream, steps[1..]);
      } else {
        StepKeepsInv(w, stream, steps[0]);
        InOrderExactly(w', stream, steps[1..]);
      }
    }
  }

  // ----- Any stream, by positions

  function Positions(n: nat): seq<int> {
    seq(n, i => i)
  }

  predicate Within(at: seq<int>, n: nat) {
    forall i | 0 <= i < |at| :: 0 <= at[i] < n
  }

  /** The bytes at these positions of the stream. */
  function Pick<T>(stream: seq<T>, at: seq<int>): seq<T>
    requires Within(at, |stream|)
  {
    seq(|at|, i requires 0 <= i < |at| => stream[at[i]])
  }

  /** `v` is `w` with each byte replaced by its position in the stream. */
  ghost predicate Follows<T>(w: World<T>, v: World<int>, stream: seq<T>) {
    && w.threadWrote == v.threadWrote && w.ran == v.ran && w.queued == v.queued && w.posted == v.posted
    && w.acked == v.acked && w.closed == v.closed
    && Within(v.output, |stream|) && w.output == Pick(stream, v.output)
    && w.pending.Queued? == v.pending.Queued?
    && (v.pending.Queued? ==> Within(v.pending.data, |stream|) && w.pending.data == Pick(stream, v.pending.data))
  }

  lemma PickTake<T>(stream: seq<T>, at: seq<int>, n: nat)
    requires Within(at, |stream|) && n <= |at|
    ensures Within(at[..n], |stream|) && Pick(stream, at)[..n] == Pick(stream, at[..n])
  {
  }

  lemma PickSlice<T>(stream: seq<T>, lo: nat, hi: nat)
    requires lo <= hi <= |stream|
    ensures Within(Positions(|stream|)[lo..hi], |stream|) && Pick(stream, Positions(|stream|)[lo..hi]) == stream[lo..hi]
  {
  }

  lemma PickAppend<T>(stream: seq<T>, a: seq<int>, b: seq<int>)
    requires Within(a, |stream|) && Within(b, |stream|)
    ensures Within(a + b, |stream|) && Pick(stream, a + b) == Pick(stream, a) + Pick(stream, b)
  {
  }

  lemma SameLength<T>(w: World<T>, v: World<int>, stream: seq<T>)
    requires Follows(w, v, stream)
    ensures w.pending.Queued? ==> |w.pending.data| == |v.pending.data|
  {
  }

  lemma SubmitFollows<T>(w: World<T>, v: World<int>, stream: seq<T>, buffer: seq<int>)
    requires Follows(w, v, stream) && Within(buffer, |stream|)
    ensures Follows(Submitted(w, Pick(stream, buffer)), Submitted(v, buffer), stream)
  {
    assert |Pick(stream, buffer)| == |buffer|;
    PickTake(stream, buffer, Min(|buffer|, BUFFER_SIZE));
    hide Within, Pick;
  }

  lemma StepFollows<T>(w: World<T>, v: World<int>, stream: seq<T>, s: Step)
    requires Follows(w, v, stream) && Enabled(w, stream, s)
    ensures Enabled(v, Positions(|stream|), s) && Repeats(w, s) == Repeats(v, s)
    ensures Follows(Next(w, stream, s), Next(v, Positions(|stream|), s), stream)
  {
    SameLength(w, v, stream);
    hide Within, Pick, Positions, Submitted, Ran;
    match s
    case Submit(count) =>
      PositionsLength(|stream|);
      PickSlice(stream, w.acked, w.acked + count);
      SubmitFollows(w, v, stream, Positions(|stream|)[w.acked..w.acked + count]);
    case Completion =>
    case WriterRuns(written) => RunFollows(w, v, stream, written);
    case Close(written) =>
      if w.pending.Queued? { RunFollows(w, v, stream, written); }
  }

  lemma PositionsLength(n: nat)
    ensures |Positions(n)| == n
  {
  }

  lemma RunFollows<T>(w: World<T>, v: World<int>, stream: seq<T>, written: nat)
    requires Follows(w, v, stream) && w.pending.Queued? && written <= |w.pending.data|
    ensures written <= |v.pending.data| && Follows(Ran(w, written), Ran(v, written), stream)
  {
    assert |w.pending.data| == |v.pending.data|;
    hide Within, Pick;
    PickTake(stream, v.pending.data, written);
    PickAppend(stream, v.output, v.pending.data[..written]);
  }

  lemma {:induction false} ByPosition<T>(w: World<T>, v: World<int>, stream: seq<T>, steps: seq<Step>)
    requires Follows(w, v, stream) && Legal(w, stream, steps)
    ensures Legal(v, Positions(|stream|), steps)
    ensures Follows(Run(w, stream, steps), Run(v, Positions(|stream|), steps), stream)
    ensures RepeatsSomewhere(w, stream, steps) == RepeatsSomewhere(v, Positions(|stream|), steps)
    decreases |steps|
  {
    hide Follows, Enabled, Next, Repeats, Positions;
    if steps != [] {
      StepFollows(w, v, stream, steps[0]);
      ByPosition(Next(w, stream, steps[0]), Next(v, Positions(|stream|), steps[0]), stream, steps[1..]);
    }
  }

  /**
    Whatever the bytes are, each byte written is the one at a position of the
    stream, and these positions are the first ones, in order and once each,
    exactly when the writer never writes twice on one buffer.
   */
  lemma EachPositionOnce<T>(stream: seq<T>, steps: seq<Step>)
    requires Legal(Start<T>(), stream, steps)
    ensures var all := Positions(|stream|);
      && Legal(Start<int>(), all, steps)
      && var written := Run(Start<int>(), all, steps).output;
         && Within(written, |stream|) && Run(Start<T>(), stream, steps).output == Pick(stream, written)
         && (written <= all <==> !RepeatsSomewhere(Start<T>(), stream, steps))
  {
    ByPosition(Start<T>(), Start<int>(), stream, steps);
    InOrderExactly(Start<int>(), Positions(|stream|), steps);
  }

  /** Closing repeats nothing exactly when nothing is queued that was written before, or the last run writes nothing. */
  lemma ClosingExactly<T>(w: World<T>, stream: seq<T>, written: nat)
    requires Inv(w, stream) && Enabled(w, stream, Close(written)) && NoDuplicates(stream)
    ensures Next(w, stream, Close(written)).output <= stream <==> w.pending.NoBuffer? || w.threadWrote == 0 || written == 0
  {
    if Repeats(w, Close(written)) {
      RepeatBreaksOrder(w, stream, Close(written));
    } else {
      StepKeepsInv(w, stream, Close(written));
    }
  }

  // ----- Completions

  /** The writer thread runs on a buffer it has run on before, be it in vain. */
  predicate RunsAgain<T>(w: World<T>, s: Step) {
    (s.WriterRuns? || s.Close?) && w.pending.Queued? && w.ran
  }

  predicate RunsAgainSomewhere<T>(w: World<T>, stream: seq<T>, steps: seq<Step>)
    requires Legal(w, stream, steps)
    decreases |steps|
  {
    steps != [] && (RunsAgain(w, steps[0]) || RunsAgainSomewhere(Next(w, stream, steps[0]), stream, steps[1..]))
  }

  /** Every completion that is handled finds its own buffer. */
  predicate AllFindTheirBuffer<T>(w: World<T>, stream: seq<T>, steps: seq<Step>)
    requires Legal(w, stream, steps)
    decreases |steps|
  {
    steps != [] ==>
      && (steps[0].Completion? ==> FindsItsBuffer(w))
      && AllFindTheirBuffer(Next(w, stream, steps[0]), stream, steps[1..])
  }

  /** One completion is on its way for a queued buffer that the writer has run on, and none else. */
  predicate Accounted<T>(w: World<T>) {
    w.posted == (if w.ran then [w.queued] else []) && (w.ran ==> w.pending.Queued?)
  }

  /** In every run in which the writer runs once on each buffer, every completion finds its own buffer. */
  lemma {:induction false} CompletionsFind<T>(w: World<T>, stream: seq<T>, steps: seq<Step>)
    requires Accounted(w) && Legal(w, stream, steps) && !RunsAgainSomewhere(w, stream, steps)
    ensures AllFindTheirBuffer(w, stream, steps) && Accounted(Run(w, stream, steps))
    decreases |steps|
  {
    if steps != [] {
      CompletionsFind(Next(w, stream, steps[0]), stream, steps[1..]);
    }
  }

  /** A completion is on its way whose buffer has been released, be another queued by then or not. */
  ghost predicate Stale<T>(w: World<T>) {
    exists k :: 0 <= k < |w.posted| && (w.posted[k] < w.queued || (w.posted[k] == w.queued && w.pending.NoBuffer?))
  }

  /** A stale completion stays on its way until it is handled, and then breaks the assertion. */
  lemma {:induction false} StaleFails<T>(w: World<T>, stream: seq<T>, steps: seq<Step>)
    requires Stale(w) && Legal(w, stream, steps) && Run(w, stream, steps).posted == []
    ensures !AllFindTheirBuffer(w, stream, steps)
    decreases |steps|
  {
    assert steps != [];
    var w' := Next(w, stream, steps[0]);
    if steps[0].Completion? && FindsItsBuffer(w) {
      var k :| 0 <= k < |w.posted| && (w.posted[k] < w.queued || (w.posted[k] == w.queued && w.pending.NoBuffer?));
      assert w'.posted[k - 1] == w.posted[k];
      StaleFails(w', stream, steps[1..]);
    } else if !steps[0].Completion? {
      var k :| 0 <= k < |w.posted| && (w.posted[k] < w.queued || (w.posted[k] == w.queued && w.pending.NoBuffer?));
      assert w'.posted[k] == w.posted[k];
      StaleFails(w', stream, steps[1..]);
    }
  }

  /** Two completions are on their way for the queued buffer. */
  ghost predicate Doubled<T>(w: World<T>) {
    w.pending.Queued? && exists i, j :: 0 <= i < j < |w.posted| && w.posted[i] == w.queued && w.posted[j] == w.queued
  }

  /** The first of two completions releases the buffer and leaves the second stale. */
  lemma {:induction false} DoubledFails<T>(w: World<T>, stream: seq<T>, steps: seq<Step>)
    requires Doubled(w) && Legal(w, stream, steps) && Run(w, stream, steps).posted == []
    ensures !AllFindTheirBuffer(w, stream, steps)
    decreases |steps|
  {
    assert steps != [];
    var w' := Next(w, stream, steps[0]);
    var i, j :| 0 <= i < j < |w.posted| && w.posted[i] == w.queued && w.posted[j] == w.queued;
    if steps[0].Completion? {
      assert w'.posted[j - 1] == w.posted[j];
      StaleFails(w', stream, steps[1..]);
    } else {
      assert w'.posted[i] == w.posted[i] && w'.posted[j] == w.posted[j];
      DoubledFails(w', stream, steps[1..]);
    }
  }

  /**
    In every run at whose end no completion is on its way, all completions found
    their own buffers exactly when the writer ran once on each buffer.
   */
  lemma {:induction false} CompletionsExactly<T>(w: World<T>, stream: seq<T>, steps: seq<Step>)
    requires Accounted(w) && Legal(w, stream, steps) && Run(w, stream, steps).posted == []
    ensures AllFindTheirBuffer(w, stream, steps) <==> !RunsAgainSomewhere(w, stream, steps)
    decreases |steps|
  {
    if steps != [] {
      var w' := Next(w, stream, steps[0]);
      if RunsAgain(w, steps[0]) {
        assert w'.posted[0] == w'.queued && w'.posted[1] == w'.queued;
        DoubledFails(w', stream, steps[1..]);
      } else {
        CompletionsExactly(w', stream, steps[1..]);
      }
    }
  }

  // ----- Examples

  /** A stream of two, submitted and written; closing before the completion is handled writes it again. */
  lemma ClosingRepeats()
    ensures var steps := [Submit(2), WriterRuns(2), Close(2)];
      && Legal(Start(), [0, 1], steps)
      && Run(Start(), [0, 1], steps).output == [0, 1, 0, 1] && Run(Start(), [0, 1], steps).posted == [1, 1]
  {
    var s0, s1, s2 := Submit(2), WriterRuns(2), Close(2);
    var w3 := AfterClosing();
    NoStep(w3, [0, 1]);
    hide Legal, Run;
    OneStep(Next(Next(Start(), [0, 1], s0), [0, 1], s1), [0, 1], s2, []);
    OneStep(Next(Start(), [0, 1], s0), [0, 1], s1, [s2]);
    OneStep(Start(), [0, 1], s0, [s1, s2]);
    assert [s2] + [] == [s2] && [s1] + [s2] == [s1, s2] && [s0] + [s1, s2] == [s0, s1, s2];
  }

  lemma AfterClosing() returns (w: World<int>)
    ensures Enabled(Start(), [0, 1], Submit(2))
    ensures var w1 := Next(Start(), [0, 1], Submit(2));
      && Enabled(w1, [0, 1], WriterRuns(2))
      && var w2 := Next(w1, [0, 1], WriterRuns(2));
      Enabled(w2, [0, 1], Close(2)) && w == Next(w2, [0, 1], Close(2))
    ensures w.output == [0, 1, 0, 1] && w.posted == [1, 1] && w.queued == 1 && w.pending.Queued?
  {
    var w1 := Next(Start(), [0, 1], Submit(2));
    assert [0, 1][0..2] == [0, 1] && [0, 1][..2] == [0, 1];
    assert w1.pending.data == [0, 1];
    var w2 := Next(w1, [0, 1], WriterRuns(2));
    assert w2.output == [0, 1];
    w := Next(w2, [0, 1], Close(2));
    assert w.output == [0, 1, 0, 1];
  }

  /** The second of the two completions finds no buffer. */
  lemma SecondCompletionFails()
    ensures var steps := [Submit(2), WriterRuns(2), Close(2), Completion, Completion];
      Legal(Start(), [0, 1], steps) && !AllFindTheirBuffer(Start(), [0, 1], steps)
  {
    var s0, s1, s2, s3 := Submit(2), WriterRuns(2), Close(2), Completion;
    var w3 := AfterClosing();
    var w4 := Next(w3, [0, 1], s3);
    var w5 := Next(w4, [0, 1], s3);
    NoStep(w5, [0, 1]);
    assert RunsAgain(Next(Next(Start(), [0, 1], s0), [0, 1], s1), s2);
    hide Legal, Run, Next, Enabled, AllFindTheirBuffer;
    var w1 := Next(Start(), [0, 1], s0);
    var w2 := Next(w1, [0, 1], s1);
    OneStep(w4, [0, 1], s3, []);
    OneStep(w3, [0, 1], s3, [s3]);
    OneStep(w2, [0, 1], s2, [s3, s3]);
    OneStep(w1, [0, 1], s1, [s2, s3, s3]);
    OneStep(Start(), [0, 1], s0, [s1, s2, s3, s3]);
    assert [s3] + [] == [s3] && [s3] + [s3] == [s3, s3] && [s2] + [s3, s3] == [s2, s3, s3];
    assert [s1] + [s2, s3, s3] == [s1, s2, s3, s3] && [s0] + [s1, s2, s3, s3] == [s0, s1, s2, s3, s3];
    assert [s0, s1, s2, s3, s3][1..] == [s1, s2, s3, s3] && [s1, s2, s3, s3][1..] == [s2, s3, s3];
    CompletionsExactly(Start<int>(), [0, 1], [s0, s1, s2, s3, s3]);
  }

  /** A round of submit, write, completion and submit acknowledges every byte the system wrote. */
  lemma RoundAcknowledges<T>(w: World<T>, stream: seq<T>, count: nat, written: nat)
    requires w.pending.NoBuffer? && w.threadWrote == 0 && w.posted == [] && !w.closed
    requires w.acked + count <= |stream| && 0 < written <= Min(count, BUFFER_SIZE)
    ensures var steps := [Submit(count), WriterRuns(written), Completion, Submit(count)];
      Legal(w, stream, steps) && Run(w, stream, steps).acked == w.acked + written
  {
    var s0, s1, s2 := Submit(count), WriterRuns(written), Submit(count);
    var w1 := Next(w, stream, s0);
    var w2 := Next(w1, stream, s1);
    var w3 := Next(w2, stream, Completion);
    var w4 := Next(w3, stream, s2);
    NoStep(w4, stream);
    hide Legal, Run;
    OneStep(w3, stream, s2, []);
    OneStep(w2, stream, Completion, [s2]);
    OneStep(w1, stream, s1, [Completion, s2]);
    OneStep(w, stream, s0, [s1, Completion, s2]);
    assert [s2] + [] == [s2] && [Completion] + [s2] == [Completion, s2];
    assert [s1] + [Completion, s2] == [s1, Completion, s2];
    assert [s0] + [s1, Completion, s2] == [s0, s1, Completion, s2];
  }
}
