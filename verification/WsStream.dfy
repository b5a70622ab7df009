/**
 Streams of frames.  Decoding does not depend on how the bytes arrive, the decoder undoes the
 peer's encoder, and it accepts nothing but what that encoder writes.
 */
module WsStream {
  import opened Counting
  import opened Wrappers
  import opened WsBytes
  import opened WsFrame

  // Splitting the input.

  function Extend(o: Outcome, b: seq<Byte>): Outcome {
    match o
    case Waiting(st, rest) => Waiting(st, rest + b)
    case Got(f, rest) => Got(f, rest + b)
    case Failed(e, rest) => Failed(e, rest + b)
  }

  function ExtendStep(s: Step, b: seq<Byte>): Step {
    match s
    case Wait => Wait
    case Next(st, rest) => Next(st, rest + b)
    case Done(f, rest) => Done(f, rest + b)
    case Fail(e, rest) => Fail(e, rest + b)
  }

  lemma SplitPrefix(a: seq<Byte>, b: seq<Byte>, n: nat)
    requires n <= |a|
    ensures (a + b)[..n] == a[..n] && (a + b)[n..] == a[n..] + b
  {
  }

  /** A step that did not wait is not changed by bytes that come later. */
  lemma StepExtends(c: Config, st: State, a: seq<Byte>, b: seq<Byte>)
    requires !DecodeStep(c, st, a).Wait?
    ensures DecodeStep(c, st, a + b) == ExtendStep(DecodeStep(c, st, a), b)
  {
    match st
    case Poisoned =>
    case AtHeader => SplitPrefix(a, b, 2);
    case ExtendedLength(_, _, width) => SplitPrefix(a, b, width);
    case MaskKey(_, _) => SplitPrefix(a, b, 4);
    case Payload(_, _, n) => SplitPrefix(a, b, n);
  }

  /** What a decoder holding a prefix does with the rest is what it would have done with both at once. */
  lemma {:induction false} DecodeExtends(c: Config, st: State, a: seq<Byte>, b: seq<Byte>)
    ensures var o := Decode(c, st, a);
      Decode(c, st, a + b) == if o.Waiting? then Decode(c, o.state, o.rest + b) else Extend(o, b)
    decreases |a|
  {
    var s := DecodeStep(c, st, a);
    if !s.Wait? {
      StepExtends(c, st, a, b);
      if s.Next? {
        DecodeExtends(c, s.state, s.rest, b);
      }
    }
  }

  /** All the frames in a buffer: the codec is asked again until it waits or fails. */
  datatype Drained = Drained(frames: seq<Frame>, end: Outcome)

  lemma {:induction false} DecodeConsumes(c: Config, st: State, src: seq<Byte>)
    ensures var o := Decode(c, st, src);
      |o.rest| <= |src| && (o.Got? && st.AtHeader? ==> |o.rest| < |src|)
    decreases |src|
  {
    var s := DecodeStep(c, st, src);
    if s.Next? { DecodeConsumes(c, s.state, s.rest); }
  }

  function Drain(c: Config, st: State, src: seq<Byte>): (d: Drained)
    ensures !d.end.Got?
    decreases |src|, Bit(!st.AtHeader?)
  {
    DecodeConsumes(c, st, src);
    var o := Decode(c, st, src);
    if o.Got? then
      var d := Drain(c, AtHeader, o.rest);
      Drained([o.frame] + d.frames, d.end)
    else Drained([], o)
  }

  function Then(d: Drained, e: Drained): Drained { Drained(d.frames + e.frames, e.end) }

  /** The state to go on from after draining a buffer. */
  function StateAfter(d: Drained): State { if d.end.Waiting? then d.end.state else Poisoned }

  function Prepend(f: Frame, d: Drained): Drained { Drained([f] + d.frames, d.end) }

  /** Draining a, then b on top of what was left. */
  function Continue(c: Config, d: Drained, b: seq<Byte>): Drained {
    if d.end.Waiting? then Then(d, Drain(c, d.end.state, d.end.rest + b)) else Drained(d.frames, Extend(d.end, b))
  }

  lemma ContinuePrepend(c: Config, f: Frame, d: Drained, b: seq<Byte>)
    ensures Continue(c, Prepend(f, d), b) == Prepend(f, Continue(c, d, b))
  {
    if d.end.Waiting? {
      var e := Drain(c, d.end.state, d.end.rest + b);
      assert ([f] + d.frames) + e.frames == [f] + (d.frames + e.frames);
    }
  }

  lemma DrainStep(c: Config, st: State, src: seq<Byte>)
    ensures var o := Decode(c, st, src);
      Drain(c, st, src) == if o.Got? then Prepend(o.frame, Drain(c, AtHeader, o.rest)) else Drained([], o)
  {
  }

  lemma DrainFrom(c: Config, st: State, a: seq<Byte>, st': State, b: seq<Byte>)
    requires Decode(c, st, a) == Decode(c, st', b)
    ensures Drain(c, st, a) == Drain(c, st', b)
  {
    DrainStep(c, st, a);
    DrainStep(c, st', b);
  }

  lemma {:induction false} DrainExtends(c: Config, st: State, a: seq<Byte>, b: seq<Byte>)
    ensures Drain(c, st, a + b) == Continue(c, Drain(c, st, a), b)
    decreases |a|, Bit(!st.AtHeader?)
  {
    var o := Decode(c, st, a);
    DecodeExtends(c, st, a, b);
    DecodeConsumes(c, st, a);
    DrainStep(c, st, a);
    DrainStep(c, st, a + b);
    match o
    case Got(f, rest) =>
      DrainExtends(c, AtHeader, rest, b);
      ContinuePrepend(c, f, Drain(c, AtHeader, rest), b);
    case Waiting(st', rest) =>
      DrainFrom(c, st, a + b, st', rest + b);
      assert Then(Drained([], o), Drain(c, st', rest + b)) == Drain(c, st', rest + b);
    case Failed(_, _) =>
  }

  /** Bytes arriving in chunks, the codec drained after each: the frames, and the first error. */
  datatype Received = Received(frames: seq<Frame>, state: State, buffer: seq<Byte>, error: Option<Error>)

  function Feed(c: Config, r: Received, chunk: seq<Byte>): Received {
    var d := Drain(c, r.state, r.buffer + chunk);
    Received(r.frames + d.frames, StateAfter(d), d.end.rest,
             if r.error.Some? || !d.end.Failed? then r.error else Some(d.end.error))
  }

  function FeedAll(c: Config, chunks: seq<seq<Byte>>): Received {
    if chunks == [] then Received([], AtHeader, [], None)
    else Feed(c, FeedAll(c, chunks[..|chunks| - 1]), chunks[|chunks| - 1])
  }

  function Flatten(chunks: seq<seq<Byte>>): seq<Byte> {
    if chunks == [] then [] else Flatten(chunks[..|chunks| - 1]) + chunks[|chunks| - 1]
  }

  function Whole(c: Config, src: seq<Byte>): Received {
    var d := Drain(c, AtHeader, src);
    Received(d.frames, StateAfter(d), d.end.rest, if d.end.Failed? then Some(d.end.error) else None)
  }

  /** However a stream is cut up, the same frames come out and the same error stops it. */
  lemma {:induction false} ChunkingIrrelevant(c: Config, chunks: seq<seq<Byte>>)
    ensures FeedAll(c, chunks) == Whole(c, Flatten(chunks))
  {
    if chunks == [] {
      assert Decode(c, AtHeader, []) == Waiting(AtHeader, []);
    } else {
      var a, b := chunks[..|chunks| - 1], chunks[|chunks| - 1];
      ChunkingIrrelevant(c, a);
      FeedWhole(c, Flatten(a), b);
    }
  }

  lemma FeedWhole(c: Config, a: seq<Byte>, b: seq<Byte>)
    ensures Feed(c, Whole(c, a), b) == Whole(c, a + b)
  {
    DrainExtends(c, AtHeader, a, b);
    var d := Drain(c, AtHeader, a);
    if d.end.Failed? {
      assert Drain(c, Poisoned, d.end.rest + b) == Drained([], Failed(ProtocolViolation(Poison), d.end.rest + b));
    }
  }
}
