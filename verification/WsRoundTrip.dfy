/** Encoding and decoding are inverse to each other, frame by frame and stream by stream. */
module WsRoundTrip {
  import opened Counting
  import opened Wrappers
  import opened WsBytes
  import opened WsFrame
  import opened WsStream

  /** No buffer is longer than this. */
  const MAX_LENGTH: nat := 0x7FFF_FFFF_FFFF_FFFF

  // The header, both ways.

  lemma JoinBits(f: nat, r1: nat, r2: nat, r3: nat, op: nat)
    requires f < 2 && r1 < 2 && r2 < 2 && r3 < 2 && op < 16
    ensures var b := op + 128 * f + 64 * r1 + 32 * r2 + 16 * r3;
      b % 16 == op && b / 16 % 2 == r3 && b / 32 % 2 == r2 && b / 64 % 2 == r1 && b / 128 % 2 == f
  {
    var b := op + 128 * f + 64 * r1 + 32 * r2 + 16 * r3;
    assert b / 16 == 8 * f + 4 * r1 + 2 * r2 + r3;
    assert b / 32 == 4 * f + 2 * r1 + r2;
    assert b / 64 == 2 * f + r1;
  }

  lemma SplitBits(b: nat)
    requires b < 256
    ensures b == 128 * (b / 128 % 2) + 64 * (b / 64 % 2) + 32 * (b / 32 % 2) + 16 * (b / 16 % 2) + b % 16
  {
    assert b / 64 == 2 * (b / 128) + b / 64 % 2;
    assert b / 32 == 2 * (b / 64) + b / 32 % 2;
    assert b / 16 == 2 * (b / 32) + b / 16 % 2;
  }

  lemma FirstByteBits(head: Head)
    ensures FirstByte(head) % 16 == head.opcode.Code() && HeadFrom(FirstByte(head), head.opcode) == head
  {
    JoinBits(Bit(head.fin), Bit(head.rsv1), Bit(head.rsv2), Bit(head.rsv3), head.opcode.Code());
  }

  lemma FirstByteOf(b: Byte, opcode: Opcode)
    requires opcode.Code() == b % 16
    ensures FirstByte(HeadFrom(b, opcode)) == b
  {
    SplitBits(b);
  }

  lemma OpcodeRead(op: Opcode)
    ensures OpcodeFrom(op.Code()) == Ok(op)
  {
  }

  ghost predicate Blocked(c: Config, head: Head) { c.validateReserved && head.Reserved() }

  lemma HeaderChecks(c: Config, head: Head, second: Byte)
    requires (second / 128 % 2 == 1) == c.role.Server?
    requires head.opcode.IsControl() ==> head.fin && second % 128 <= 125
    ensures HeaderError(c, FirstByte(head), second) == if Blocked(c, head) then Some(ReservedBitsSet) else None
  {
    FirstByteBits(head);
    OpcodeRead(head.opcode);
  }

  /** The seven length bits. */
  function Length7(n: nat): nat { if n <= 125 then n else if n <= 65535 then 126 else 127 }

  function LengthByte(masked: bool, n: nat): Byte { 128 * Bit(masked) + Length7(n) }

  lemma LengthByteBits(masked: bool, n: nat)
    ensures LengthByte(masked, n) / 128 % 2 == Bit(masked) && LengthByte(masked, n) % 128 == Length7(n)
  {
  }

  function LengthTail(n: nat): seq<Byte> {
    if n <= 125 then [] else if n <= 65535 then ToBytes(n, 2) else ToBytes(n, 8)
  }

  lemma HeaderParts(head: Head, masked: bool, n: nat, tail: seq<Byte>)
    ensures var src := Header(head, masked, n) + tail;
      |src| >= 2 && src[0] == FirstByte(head) && src[1] == LengthByte(masked, n)
      && src[2..] == LengthTail(n) + tail
  {
  }

  lemma LengthRead(c: Config, head: Head, masked: bool, n: nat, tail: seq<Byte>)
    requires 126 <= n <= MAX_LENGTH
    ensures LengthStep(c, head, masked, if n <= 65535 then 2 else 8, LengthTail(n) + tail)
      == LengthKnown(c, head, masked, n, tail)
  {
    TwoAndEight();
    var width := if n <= 65535 then 2 else 8;
    FromToBytes(n, width);
    SplitPrefix(LengthTail(n), tail, width);
    assert LengthTail(n)[..width] == LengthTail(n) && LengthTail(n)[width..] + tail == tail;
  }

  lemma HeaderStepReads(c: Config, head: Head, second: Byte, src: seq<Byte>)
    requires |src| >= 2 && src[0] == FirstByte(head) && src[1] == second
    requires HeaderError(c, FirstByte(head), second).None?
    ensures HeaderStep(c, src) == AfterHeader(c, head, second / 128 % 2 == 1, second % 128, src[2..])
  {
    FirstByteBits(head);
    OpcodeRead(head.opcode);
  }

  lemma HeaderReads(c: Config, head: Head, n: nat, tail: seq<Byte>)
    requires n <= MAX_LENGTH && !Blocked(c, head)
    requires head.opcode.IsControl() ==> head.fin && n <= 125
    ensures Decode(c, AtHeader, Header(head, c.role.Server?, n) + tail)
      == if n > c.maxPayload then Failed(PayloadTooLarge(n, c.maxPayload), tail)
         else Decode(c, AfterLength(head, c.role.Server?, n), tail)
  {
    var masked := c.role.Server?;
    var src, second := Header(head, masked, n) + tail, LengthByte(masked, n);
    HeaderParts(head, masked, n, tail);
    LengthByteBits(masked, n);
    HeaderChecks(c, head, second);
    HeaderStepReads(c, head, second, src);
    LengthReads(c, head, masked, n, tail);
  }

  lemma LengthReads(c: Config, head: Head, masked: bool, n: nat, tail: seq<Byte>)
    requires n <= MAX_LENGTH
    ensures var s := AfterHeader(c, head, masked, Length7(n), LengthTail(n) + tail);
      if n <= 125 then s == LengthKnown(c, head, masked, n, tail)
      else s.Next? && DecodeStep(c, s.state, s.rest) == LengthKnown(c, head, masked, n, tail)
  {
    if n <= 125 {
      assert LengthTail(n) + tail == tail;
    } else {
      LengthRead(c, head, masked, n, tail);
    }
  }

  // The body, both ways.

  function Body(masked: bool, key: Key, payload: seq<Byte>): seq<Byte> {
    if masked then key + Mask(payload, key) else payload
  }

  function Key0(masked: bool, key: Key): Option<Key> { if masked then Some(key) else None }

  lemma BodyReads(c: Config, frame: Frame, masked: bool, key: Key, tail: seq<Byte>)
    requires Refusal(frame).None?
    ensures Decode(c, AfterLength(frame.head, masked, |frame.payload|), Body(masked, key, frame.payload) + tail)
      == Got(Frame(frame.head, masked, Key0(masked, key), frame.payload), tail)
  {
    var n, payload := |frame.payload|, frame.payload;
    if masked {
      var sealed := Mask(payload, key);
      MaskTwice(payload, key);
      assert (key + sealed) + tail == key + (sealed + tail);
      SplitPrefix(key, sealed + tail, 4);
      assert key[..4] == key && key[4..] + (sealed + tail) == sealed + tail;
      PayloadReads(c, frame.head, Some(key), sealed, tail);
    } else {
      PayloadReads(c, frame.head, None, payload, tail);
    }
  }

  lemma PayloadReads(c: Config, head: Head, key: Option<Key>, sent: seq<Byte>, tail: seq<Byte>)
    ensures var payload := if key.Some? then Mask(sent, key.value) else sent;
      (head.opcode.Close? ==> ClosePayloadOk(payload)) ==>
      Decode(c, Payload(head, key, |sent|), sent + tail) == Got(Frame(head, key.Some?, key, payload), tail)
  {
    SplitPrefix(sent, tail, |sent|);
    assert sent[..|sent|] == sent && sent[|sent|..] + tail == tail;
  }

  lemma EncodeParts(role: Role, frame: Frame, key: Key)
    requires Refusal(frame).None?
    ensures Encode(role, frame, key)
      == Ok(Header(frame.head, role.Client?, |frame.payload|) + Body(role.Client?, key, frame.payload))
  {
    var h := Header(frame.head, true, |frame.payload|);
    assert (h + key) + Mask(frame.payload, key) == h + (key + Mask(frame.payload, key));
  }

  /** The frame as the other side sees it. */
  function Delivered(c: Config, frame: Frame, key: Key): Frame {
    Frame(frame.head, c.role.Server?, Key0(c.role.Server?, key), frame.payload)
  }

  ghost predicate Acceptable(c: Config, frame: Frame) {
    !Blocked(c, frame.head) && |frame.payload| <= c.maxPayload
  }

  /** Whatever the peer encodes is decoded to the same frame, or refused for one of two reasons. */
  lemma RoundTrip(c: Config, frame: Frame, key: Key, tail: seq<Byte>)
    requires Refusal(frame).None? && |frame.payload| <= MAX_LENGTH
    ensures var o := Decode(c, AtHeader, Encode(c.role.Peer(), frame, key).value + tail);
      && (Acceptable(c, frame) ==> o == Got(Delivered(c, frame, key), tail))
      && (Blocked(c, frame.head) ==> o.Failed? && o.error == ReservedBitsSet)
      && (!Blocked(c, frame.head) && |frame.payload| > c.maxPayload ==>
           o.Failed? && o.error == PayloadTooLarge(|frame.payload|, c.maxPayload))
  {
    var masked, n := c.role.Server?, |frame.payload|;
    EncodeParts(c.role.Peer(), frame, key);
    var h, body := Header(frame.head, masked, n), Body(masked, key, frame.payload);
    assert (h + body) + tail == h + (body + tail);
    if Blocked(c, frame.head) {
      BlockedHeader(c, frame.head, n, body + tail);
    } else {
      HeaderReads(c, frame.head, n, body + tail);
      BodyReads(c, frame, masked, key, tail);
    }
  }

  lemma BlockedHeader(c: Config, head: Head, n: nat, tail: seq<Byte>)
    requires Blocked(c, head) && (head.opcode.IsControl() ==> head.fin && n <= 125)
    ensures var src := Header(head, c.role.Server?, n) + tail; Decode(c, AtHeader, src) == Failed(ReservedBitsSet, src)
  {
    HeaderParts(head, c.role.Server?, n, tail);
    LengthByteBits(c.role.Server?, n);
    HeaderChecks(c, head, LengthByte(c.role.Server?, n));
  }

  // Nothing else is accepted.

  ghost predicate IsEncoding(c: Config, src: seq<Byte>, frame: Frame, rest: seq<Byte>) {
    && frame.masked == frame.maskKey.Some? == c.role.Server?
    && var key := if frame.masked then frame.maskKey.value else [0, 0, 0, 0];
       Refusal(frame).None? && src == Encode(c.role.Peer(), frame, key).value + rest
  }

  lemma HeaderStepWritten(c: Config, src: seq<Byte>, step: Step) returns (head: Head, len: nat)
    requires step == HeaderStep(c, src) && step.Next?
    ensures len < 128 && src == [FirstByte(head), 128 * Bit(c.role.Server?) + len] + src[2..]
    ensures head.opcode.IsControl() ==> head.fin && len <= 125
    ensures step == AfterHeader(c, head, c.role.Server?, len, src[2..])
  {
    var first, second := src[0], src[1];
    head, len := HeadFrom(first, OpcodeFrom(first % 16).value), second % 128;
    FirstByteOf(first, head.opcode);
    assert second == 128 * Bit(c.role.Server?) + len;
  }

  lemma SizeWritten(c: Config, head: Head, masked: bool, len: nat, tail: seq<Byte>, step: Step, o: Outcome)
      returns (n: nat, rest: seq<Byte>)
    requires len < 128 && step == AfterHeader(c, head, masked, len, tail)
    requires step.Next? && o.Got? && o == Decode(c, step.state, step.rest)
    ensures len == Length7(n) && tail == LengthTail(n) + rest && o == Decode(c, AfterLength(head, masked, n), rest)
  {
    if len <= 125 {
      n, rest := len, tail;
      assert LengthTail(n) + rest == rest;
    } else {
      n, rest := LengthWritten(c, head, masked, if len == 126 then 2 else 8, tail);
    }
  }

  lemma HeaderWritten(c: Config, src: seq<Byte>, step: Step, o: Outcome) returns (head: Head, n: nat, rest: seq<Byte>)
    requires step == HeaderStep(c, src) && step.Next? && o.Got? && o == Decode(c, step.state, step.rest)
    ensures src == Header(head, c.role.Server?, n) + rest
    ensures head.opcode.IsControl() ==> head.fin && n <= 125
    ensures o == Decode(c, AfterLength(head, c.role.Server?, n), rest)
  {
    var len;
    head, len := HeaderStepWritten(c, src, step);
    n, rest := TailWritten(c, src, head, len, src[2..], step, o);
  }

  lemma TailWritten(c: Config, src: seq<Byte>, head: Head, len: nat, tail: seq<Byte>, step: Step, o: Outcome)
      returns (n: nat, rest: seq<Byte>)
    requires len < 128 && src == [FirstByte(head), 128 * Bit(c.role.Server?) + len] + tail
    requires head.opcode.IsControl() ==> head.fin && len <= 125
    requires step == AfterHeader(c, head, c.role.Server?, len, tail)
    requires step.Next? && o.Got? && o == Decode(c, step.state, step.rest)
    ensures src == Header(head, c.role.Server?, n) + rest
    ensures head.opcode.IsControl() ==> head.fin && n <= 125
    ensures o == Decode(c, AfterLength(head, c.role.Server?, n), rest)
  {
    n, rest := SizeWritten(c, head, c.role.Server?, len, tail, step, o);
    HeaderJoins(src, head, c.role.Server?, len, n, tail, rest);
  }

  lemma HeaderJoins(src: seq<Byte>, head: Head, masked: bool, len: nat, n: nat, tail: seq<Byte>, rest: seq<Byte>)
    requires len < 128 && src == [FirstByte(head), 128 * Bit(masked) + len] + tail
    requires len == Length7(n) && tail == LengthTail(n) + rest
    ensures src == Header(head, masked, n) + rest
  {
    HeaderParts(head, masked, n, rest);
  }

  lemma LengthWritten(c: Config, head: Head, masked: bool, width: Width, src: seq<Byte>)
      returns (n: nat, rest: seq<Byte>)
    requires Decode(c, ExtendedLength(head, masked, width), src).Got?
    ensures src == LengthTail(n) + rest && n >= 126 && (n <= 65535 <==> width == 2)
    ensures Decode(c, ExtendedLength(head, masked, width), src) == Decode(c, AfterLength(head, masked, n), rest)
  {
    TwoAndEight();
    n, rest := FromBytes(src[..width]), src[width..];
    ToFromBytes(src[..width]);
    assert src == src[..width] + src[width..];
  }

  lemma BodyWritten(c: Config, head: Head, masked: bool, n: nat, src: seq<Byte>) returns (key: Key)
    requires Decode(c, AfterLength(head, masked, n), src).Got?
    ensures var o := Decode(c, AfterLength(head, masked, n), src);
      && |o.frame.payload| == n && o.frame == Frame(head, masked, Key0(masked, key), o.frame.payload)
      && src == Body(masked, key, o.frame.payload) + o.rest
      && (head.opcode.Close? ==> ClosePayloadOk(o.frame.payload))
  {
    key := [0, 0, 0, 0];
    if masked {
      key := src[..4];
      var left := src[4..];
      MaskTwice(left[..n], key);
      assert src == key + (left[..n] + left[n..]) == (key + left[..n]) + left[n..];
    } else {
      assert src == src[..n] + src[n..];
    }
  }

  lemma PartsEncode(c: Config, src: seq<Byte>, frame: Frame, key: Key, rest: seq<Byte>, left: seq<Byte>)
    requires src == Header(frame.head, c.role.Server?, |frame.payload|) + rest
    requires rest == Body(c.role.Server?, key, frame.payload) + left
    requires frame == Delivered(c, frame, key) && Refusal(frame).None?
    ensures IsEncoding(c, src, frame, left)
  {
    var used := if frame.masked then frame.maskKey.value else [0, 0, 0, 0];
    EncodeParts(c.role.Peer(), frame, used);
    var h, body := Header(frame.head, c.role.Server?, |frame.payload|), Body(c.role.Server?, key, frame.payload);
    assert body == Body(c.role.Server?, used, frame.payload);
    ConcatAssoc(h, body, left);
  }

  /** The decoder accepts exactly the peer's encodings: one byte string for each frame and key. */
  lemma Canonical(c: Config, src: seq<Byte>)
    requires Decode(c, AtHeader, src).Got?
    ensures var o := Decode(c, AtHeader, src); IsEncoding(c, src, o.frame, o.rest)
  {
    var o := Decode(c, AtHeader, src);
    var step := DecodeStep(c, AtHeader, src);
    var head, n, rest := HeaderWritten(c, src, step, o);
    var key := BodyWritten(c, head, c.role.Server?, n, rest);
    PartsEncode(c, src, o.frame, key, rest, o.rest);
  }
}
