/** Whole conversations: what one side sends is what the other receives, and the benchmark's own frames. */
module WsTraffic {
  import opened Wrappers
  import opened WsBytes
  import opened WsFrame
  import opened WsStream
  import opened WsRoundTrip

  datatype Sent = Sent(frame: Frame, key: Key)

  ghost predicate Sendable(sent: seq<Sent>) {
    forall i :: 0 <= i < |sent| ==> Refusal(sent[i].frame).None? && |sent[i].frame.payload| <= MAX_LENGTH
  }

  /** The bytes on the wire. */
  ghost function Wire(role: Role, sent: seq<Sent>): seq<Byte>
    requires Sendable(sent)
  {
    if sent == [] then [] else Encode(role, sent[0].frame, sent[0].key).value + Wire(role, sent[1..])
  }

  /** The frames up to the first that the receiver's configuration refuses. */
  ghost function AcceptedPrefix(c: Config, sent: seq<Sent>): (n: nat)
    ensures n <= |sent|
    ensures forall i :: 0 <= i < n ==> Acceptable(c, sent[i].frame)
    ensures n < |sent| ==> !Acceptable(c, sent[n].frame)
  {
    if sent == [] || !Acceptable(c, sent[0].frame) then 0 else 1 + AcceptedPrefix(c, sent[1..])
  }

  function DeliveredAll(c: Config, sent: seq<Sent>): (r: seq<Frame>)
    ensures |r| == |sent| && forall i :: 0 <= i < |r| ==> r[i] == Delivered(c, sent[i].frame, sent[i].key)
  {
    if sent == [] then [] else [Delivered(c, sent[0].frame, sent[0].key)] + DeliveredAll(c, sent[1..])
  }

  lemma DeliveredFirst(c: Config, sent: seq<Sent>, n: nat)
    requires n < |sent|
    ensures DeliveredAll(c, sent[..n + 1])
      == [Delivered(c, sent[0].frame, sent[0].key)] + DeliveredAll(c, sent[1..][..n])
  {
    assert sent[..n + 1][1..] == sent[1..][..n];
  }

  /** Why a frame is refused. */
  function RefusedWith(c: Config, frame: Frame): Error {
    if c.validateReserved && frame.head.Reserved() then ReservedBitsSet
    else PayloadTooLarge(|frame.payload|, c.maxPayload)
  }

  lemma {:induction false} DrainWire(c: Config, sent: seq<Sent>)
    requires Sendable(sent)
    ensures var d, n := Drain(c, AtHeader, Wire(c.role.Peer(), sent)), AcceptedPrefix(c, sent);
      && d.frames == DeliveredAll(c, sent[..n])
      && (n == |sent| ==> d.end == Waiting(AtHeader, []))
      && (n < |sent| ==> d.end.Failed? && d.end.error == RefusedWith(c, sent[n].frame))
  {
    if sent != [] {
      var f, k, rest := sent[0].frame, sent[0].key, sent[1..];
      var tail := Wire(c.role.Peer(), rest);
      RoundTrip(c, f, k, tail);
      DrainStep(c, AtHeader, Wire(c.role.Peer(), sent));
      if Acceptable(c, f) {
        DrainWire(c, rest);
        DeliveredFirst(c, sent, AcceptedPrefix(c, rest));
      }
    }
  }

  /**
   However the peer's bytes are cut into reads, the receiver gets exactly the frames sent, up to the
   first it refuses, and then the error for that one.
   */
  lemma EverySplitDelivers(c: Config, sent: seq<Sent>, chunks: seq<seq<Byte>>)
    requires Sendable(sent) && Flatten(chunks) == Wire(c.role.Peer(), sent)
    ensures var r, n := FeedAll(c, chunks), AcceptedPrefix(c, sent);
      && r.frames == DeliveredAll(c, sent[..n])
      && r.error == (if n == |sent| then None else Some(RefusedWith(c, sent[n].frame)))
      && (n == |sent| ==> r.state == AtHeader && r.buffer == [])
  {
    ChunkingIrrelevant(c, chunks);
    DrainWire(c, sent);
  }

  // The benchmark's frame builder writes a fixed key and does not mask the payload with it.

  const BENCH_KEY: Key := [0x12, 0x34, 0x56, 0x78]

  function Fill(n: nat): (s: seq<Byte>)
    ensures |s| == n
  {
    seq(n, _ => 0xAB)
  }

  /** What a receiver makes of it. */
  function BenchPayload(n: nat, masked: bool): seq<Byte> {
    if masked then Mask(Fill(n), BENCH_KEY) else Fill(n)
  }

  function BenchFrame(n: nat, masked: bool): Frame {
    Frame(Head(true, false, false, false, Binary), masked, Key0(masked, BENCH_KEY), BenchPayload(n, masked))
  }

  method CreateWsFrame(payloadLen: nat, masked: bool) returns (frame: seq<Byte>)
    ensures frame == Encode(if masked then Client else Server, BenchFrame(payloadLen, masked), BENCH_KEY).value
  {
    frame := [0x82];
    var maskBit := if masked then 0x80 else 0x00;
    if payloadLen < 126 {
      frame := frame + [maskBit + payloadLen];
    } else if payloadLen < 65536 {
      frame := frame + [maskBit + 0x7E];
      frame := frame + ToBytes(payloadLen, 2);
    } else {
      frame := frame + [maskBit + 0x7F];
      frame := frame + ToBytes(payloadLen, 8);
    }
    ghost var head := BenchFrame(payloadLen, masked).head;
    assert frame == Header(head, masked, payloadLen);
    if masked {
      frame := frame + BENCH_KEY;
    }
    MaskTwice(Fill(payloadLen), BENCH_KEY);
    frame := frame + Fill(payloadLen);
  }

  /** A run of such frames, each with a length and a mask flag of its own. */
  datatype Spec = Spec(len: nat, masked: bool)

  ghost function BenchWire(specs: seq<Spec>): seq<Byte> {
    if specs == [] then [] else BenchBytes(specs[0]) + BenchWire(specs[1..])
  }

  ghost function BenchBytes(spec: Spec): seq<Byte> {
    Encode(if spec.masked then Client else Server, BenchFrame(spec.len, spec.masked), BENCH_KEY).value
  }

  /** What a receiver objects to: the wrong mask flag for its role, or else the size. */
  function Objection(c: Config, spec: Spec): Option<Error> {
    if c.role.Server? && !spec.masked then Some(UnmaskedClientFrame)
    else if c.role.Client? && spec.masked then Some(MaskedServerFrame)
    else if spec.len > c.maxPayload then Some(PayloadTooLarge(spec.len, c.maxPayload))
    else None
  }

  /** The frames up to the first it objects to. */
  function Unobjected(c: Config, specs: seq<Spec>): (n: nat)
    ensures n <= |specs| && (n < |specs| ==> Objection(c, specs[n]).Some?)
    ensures forall i :: 0 <= i < n ==> Objection(c, specs[i]).None?
  {
    if specs == [] || Objection(c, specs[0]).Some? then 0 else 1 + Unobjected(c, specs[1..])
  }

  function BenchFrames(specs: seq<Spec>): (frames: seq<Frame>)
    ensures |frames| == |specs|
    ensures forall i :: 0 <= i < |specs| ==> frames[i] == BenchFrame(specs[i].len, specs[i].masked)
  {
    if specs == [] then [] else [BenchFrame(specs[0].len, specs[0].masked)] + BenchFrames(specs[1..])
  }

  lemma WrongFlag(c: Config, spec: Spec, tail: seq<Byte>)
    requires spec.masked != c.role.Server?
    ensures var o := Decode(c, AtHeader, BenchBytes(spec) + tail); o.Failed? && Some(o.error) == Objection(c, spec)
  {
    var f := BenchFrame(spec.len, spec.masked);
    EncodeParts(if spec.masked then Client else Server, f, BENCH_KEY);
    var h, body := Header(f.head, spec.masked, spec.len), Body(spec.masked, BENCH_KEY, f.payload);
    ConcatAssoc(h, body, tail);
    HeaderParts(f.head, spec.masked, spec.len, body + tail);
    FlagRefused(c, spec, h + (body + tail));
  }

  lemma FlagRefused(c: Config, spec: Spec, src: seq<Byte>)
    requires spec.masked != c.role.Server? && |src| >= 2
    requires src[0] == FirstByte(BenchFrame(spec.len, spec.masked).head) && src[1] == LengthByte(spec.masked, spec.len)
    ensures var o := Decode(c, AtHeader, src); o.Failed? && Some(o.error) == Objection(c, spec)
  {
    LengthByteBits(spec.masked, spec.len);
    FirstByteBits(BenchFrame(spec.len, spec.masked).head);
    OpcodeRead(Binary);
  }

  lemma BenchFrameDecodes(c: Config, spec: Spec, tail: seq<Byte>)
    requires spec.len <= MAX_LENGTH
    ensures var o := Decode(c, AtHeader, BenchBytes(spec) + tail);
      match Objection(c, spec)
      case None => o == Got(BenchFrame(spec.len, spec.masked), tail)
      case Some(error) => o.Failed? && o.error == error
  {
    if spec.masked == c.role.Server? {
      assert c.role.Peer() == if spec.masked then Client else Server;
      RoundTrip(c, BenchFrame(spec.len, spec.masked), BENCH_KEY, tail);
    } else {
      WrongFlag(c, spec, tail);
    }
  }

  /**
   A receiver takes any run of such frames apart into exactly those frames, up to the first whose
   mask flag or size does not suit it, and fails there with the error for that.
   */
  lemma {:induction false} BenchFramesDecode(c: Config, specs: seq<Spec>)
    requires forall i :: 0 <= i < |specs| ==> specs[i].len <= MAX_LENGTH
    ensures var d, n := Drain(c, AtHeader, BenchWire(specs)), Unobjected(c, specs);
      && d.frames == BenchFrames(specs[..n])
      && (n == |specs| ==> d.end == Waiting(AtHeader, []))
      && (n < |specs| ==> d.end.Failed? && Some(d.end.error) == Objection(c, specs[n]))
  {
    if specs != [] {
      BenchFrameDecodes(c, specs[0], BenchWire(specs[1..]));
      DrainStep(c, AtHeader, BenchWire(specs));
      if Objection(c, specs[0]).None? {
        BenchFramesDecode(c, specs[1..]);
        BenchFramesFirst(specs, Unobjected(c, specs[1..]));
      }
    }
  }

  lemma BenchFramesFirst(specs: seq<Spec>, n: nat)
    requires n < |specs|
    ensures BenchFrames(specs[..n + 1]) == [BenchFrame(specs[0].len, specs[0].masked)] + BenchFrames(specs[1..][..n])
  {
    assert specs[..n + 1][1..] == specs[1..][..n];
  }
}
