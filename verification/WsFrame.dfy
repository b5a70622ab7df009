/**
 WebSocket frames as the frame codec encodes and decodes them (section 5.2 of RFC 6455).  The
 decoder is a state machine over a growing buffer: each state asks for some bytes and either
 waits, moves on, delivers a frame or fails.
 */
module WsFrame {
  import opened Counting
  import opened Wrappers
  import opened WsBytes
  import opened WsUtf8
  import opened WsWire

  datatype Opcode = Continuation | Text | Binary | Close | Ping | Pong {
    predicate IsControl() { Close? || Ping? || Pong? }

    function Code(): Byte {
      match this
      case Continuation => 0x0
      case Text => 0x1
      case Binary => 0x2
      case Close => 0x8
      case Ping => 0x9
      case Pong => 0xA
    }
  }

  function OpcodeFrom(code: Byte): (r: Result<Opcode, Error>)
    ensures r.Ok? ==> r.value.Code() == code
    ensures r.Err? ==> forall op: Opcode :: op.Code() != code
  {
    match code
    case 0x0 => Ok(Continuation)
    case 0x1 => Ok(Text)
    case 0x2 => Ok(Binary)
    case 0x8 => Ok(Close)
    case 0x9 => Ok(Ping)
    case 0xA => Ok(Pong)
    case _ => Err(InvalidOpcode(code))
  }

  datatype Head = Head(fin: bool, rsv1: bool, rsv2: bool, rsv3: bool, opcode: Opcode) {
    predicate Reserved() { rsv1 || rsv2 || rsv3 }
  }

  datatype Frame = Frame(head: Head, masked: bool, maskKey: Option<Key>, payload: seq<Byte>)

  datatype Role = Client | Server {
    function Peer(): Role { if this.Client? then Server else Client }
  }

  datatype Violation = Poison | NonMinimal | HighBit

  datatype Error =
    | ReservedBitsSet
    | InvalidOpcode(code: nat)
    | UnmaskedClientFrame
    | MaskedServerFrame
    | FragmentedControlFrame
    | ControlFrameTooLarge(len: nat)
    | PayloadTooLarge(size: nat, max: nat)
    | ProtocolViolation(what: Violation)
    | InvalidClosePayload

  datatype Config = Config(role: Role, maxPayload: nat, validateReserved: bool)

  // Close payloads.

  predicate ReceivableCode(code: nat) {
    1000 <= code <= 1003 || 1007 <= code <= 1014 || 1016 <= code <= 4999
  }

  predicate ClosePayloadOk(payload: seq<Byte>) {
    |payload| == 0 || (|payload| >= 2 && ReceivableCode(FromBytes(payload[..2])) && Utf8(payload[2..]))
  }

  /** Nothing, or a big-endian code that may be received and a reason in UTF-8. */
  lemma CloseOkIff(payload: seq<Byte>)
    ensures ClosePayloadOk(payload) <==> payload == [] || (|payload| >= 2 && CloseLaid(payload))
  {
    if |payload| >= 2 {
      Utf8Iff(payload[2..]);
      TwoByteNumber(payload[..2]);
    }
  }

  ghost predicate CloseLaid(payload: seq<Byte>)
    requires |payload| >= 2
  {
    var code: nat := (payload[0] as nat) * 256 + payload[1];
    1000 <= code < 5000 && code !in {1004, 1005, 1006, 1015} && exists cs :: Encodes(cs, payload[2..])
  }

  // Encoding.

  function FirstByte(head: Head): Byte {
    head.opcode.Code() + 128 * Bit(head.fin) + 64 * Bit(head.rsv1) + 32 * Bit(head.rsv2) + 16 * Bit(head.rsv3)
  }

  /** The mask bit and the payload length, in the shortest of the three forms. */
  function LengthBytes(masked: bool, n: nat): seq<Byte> {
    var mask := 128 * Bit(masked);
    if n <= 125 then [mask + n]
    else if n <= 65535 then [mask + 0x7E] + ToBytes(n, 2)
    else [mask + 0x7F] + ToBytes(n, 8)
  }

  function Header(head: Head, masked: bool, n: nat): seq<Byte> {
    [FirstByte(head)] + LengthBytes(masked, n)
  }

  /** Refused before a byte is written. */
  function Refusal(frame: Frame): Option<Error> {
    if frame.head.opcode.IsControl() && !frame.head.fin then Some(FragmentedControlFrame)
    else if frame.head.opcode.IsControl() && |frame.payload| > 125 then Some(ControlFrameTooLarge(|frame.payload|))
    else if frame.head.opcode.Close? && !ClosePayloadOk(frame.payload) then Some(InvalidClosePayload)
    else None
  }

  /** `encode_with_entropy`: a client masks with the key its entropy source gave, a server never masks. */
  function Encode(role: Role, frame: Frame, key: Key): Result<seq<Byte>, Error> {
    if Refusal(frame).Some? then Err(Refusal(frame).value)
    else if role.Client? then Ok(Header(frame.head, true, |frame.payload|) + key + Mask(frame.payload, key))
    else Ok(Header(frame.head, false, |frame.payload|) + frame.payload)
  }

  /** The opcode numbers are those of the table in section 5.2 of RFC 6455. */
  ghost predicate Laid(w: seq<Byte>, frame: Frame, masked: bool, key: Key) {
    var Head(fin, rsv1, rsv2, rsv3, opcode) := frame.head;
    var number := match opcode {
      case Continuation => 0
      case Text => 1
      case Binary => 2
      case Close => 8
      case Ping => 9
      case Pong => 10
    };
    FrameLaid(w, fin, rsv1, rsv2, rsv3, number, masked, key, frame.payload)
  }

  lemma FirstByteIs(head: Head, number: nat)
    requires number == head.opcode.Code() < 16
    ensures FirstByteLaid(FirstByte(head), head.fin, head.rsv1, head.rsv2, head.rsv3, number)
  {
  }

  function SecondByte(masked: bool, n: nat): Byte {
    128 * Bit(masked) + if n <= 125 then n else if n <= 65535 then 0x7E else 0x7F
  }

  lemma SecondByteIs(masked: bool, n: nat)
    ensures SecondByteLaid(SecondByte(masked, n), masked, n)
    ensures LengthBytes(masked, n) == [SecondByte(masked, n)] + ToBytes(n, LengthWidth(n))
  {
  }

  lemma EncodedParts(role: Role, frame: Frame, key: Key, ext: seq<Byte>, used: seq<Byte>, data: seq<Byte>)
      returns (w: seq<Byte>)
    requires Refusal(frame).None? && ext == ToBytes(|frame.payload|, LengthWidth(|frame.payload|))
    requires used == if role.Client? then key else []
    requires data == if role.Client? then Mask(frame.payload, key) else frame.payload
    ensures Encode(role, frame, key) == Ok(w)
    ensures w == [FirstByte(frame.head), SecondByte(role.Client?, |frame.payload|)] + ext + used + data
  {
    w := Encode(role, frame, key).value;
    SecondByteIs(role.Client?, |frame.payload|);
    HeaderIs(FirstByte(frame.head), SecondByte(role.Client?, |frame.payload|), ext);
    var h := Header(frame.head, role.Client?, |frame.payload|);
    assert h + [] == h;
  }

  lemma HeaderIs(first: Byte, second: Byte, ext: seq<Byte>)
    ensures [first] + ([second] + ext) == [first, second] + ext
  {
  }

  /** Whatever is encoded is laid out on the wire as the standard says. */
  lemma WireFormat(role: Role, frame: Frame, key: Key)
    requires Refusal(frame).None?
    ensures Encode(role, frame, key).Ok? && Laid(Encode(role, frame, key).value, frame, role.Client?, key)
  {
    var masked, n := role.Client?, |frame.payload|;
    var ext, used := ToBytes(n, LengthWidth(n)), if masked then key else [];
    var data := if masked then Mask(frame.payload, key) else frame.payload;
    var w := EncodedParts(role, frame, key, ext, used, data);
    PartsOf(w, FirstByte(frame.head), SecondByte(masked, n), ext, used, data);
    FirstByteIs(frame.head, frame.head.opcode.Code());
    SecondByteIs(masked, n);
    ToBytesBigEndian(n, LengthWidth(n));
    if masked { MaskedDataLaid(key, frame.payload); }
  }

  // Decoding.

  type Width = x: nat | x == 2 || x == 8 witness 2

  datatype State =
    | AtHeader
    | ExtendedLength(head: Head, masked: bool, bytesNeeded: Width)
    | MaskKey(head: Head, payloadLen: nat)
    | Payload(head: Head, maskKey: Option<Key>, payloadLen: nat)
    | Poisoned

  datatype Step =
    | Wait
    | Next(state: State, rest: seq<Byte>)
    | Done(frame: Frame, rest: seq<Byte>)
    | Fail(error: Error, rest: seq<Byte>)

  function HeadFrom(b: Byte, opcode: Opcode): Head {
    Head(b / 128 % 2 == 1, b / 64 % 2 == 1, b / 32 % 2 == 1, b / 16 % 2 == 1, opcode)
  }

  /** The checks on the two header bytes, in the order they are made. */
  function HeaderError(c: Config, first: Byte, second: Byte): Option<Error> {
    var opcode := OpcodeFrom(first % 16);
    var masked, len := second / 128 % 2 == 1, second % 128;
    var reserved := first / 64 % 2 == 1 || first / 32 % 2 == 1 || first / 16 % 2 == 1;
    if c.validateReserved && reserved then Some(ReservedBitsSet)
    else if opcode.Err? then Some(opcode.error)
    else if c.role.Server? && !masked then Some(UnmaskedClientFrame)
    else if c.role.Client? && masked then Some(MaskedServerFrame)
    else if opcode.value.IsControl() && first / 128 % 2 == 0 then Some(FragmentedControlFrame)
    else if opcode.value.IsControl() && len > 125 then Some(ControlFrameTooLarge(len))
    else None
  }

  function AfterLength(head: Head, masked: bool, n: nat): State {
    if masked then MaskKey(head, n) else Payload(head, None, n)
  }

  function LengthKnown(c: Config, head: Head, masked: bool, n: nat, rest: seq<Byte>): Step {
    if n > c.maxPayload then Fail(PayloadTooLarge(n, c.maxPayload), rest)
    else Next(AfterLength(head, masked, n), rest)
  }

  /** The two header bytes are good; a length of 126 or 127 stands for one in the next 2 or 8 bytes. */
  function AfterHeader(c: Config, head: Head, masked: bool, len: nat, rest: seq<Byte>): (s: Step)
    ensures s.Next? ==> |s.rest| <= |rest|
  {
    if len <= 125 then LengthKnown(c, head, masked, len, rest)
    else Next(ExtendedLength(head, masked, if len == 126 then 2 else 8), rest)
  }

  function HeaderStep(c: Config, src: seq<Byte>): (s: Step)
    ensures s.Next? ==> |s.rest| < |src|
  {
    if |src| < 2 then Wait
    else
      var first, second := src[0], src[1];
      var error := HeaderError(c, first, second);
      if error.Some? then Fail(error.value, src)
      else
        var head := HeadFrom(first, OpcodeFrom(first % 16).value);
        AfterHeader(c, head, second / 128 % 2 == 1, second % 128, src[2..])
  }

  function LengthStep(c: Config, head: Head, masked: bool, width: Width, src: seq<Byte>): (s: Step)
    ensures s.Next? ==> |s.rest| < |src|
  {
    if |src| < width then Wait
    else
      var n, rest := FromBytes(src[..width]), src[width..];
      if width == 8 && n >= 0x8000_0000_0000_0000 then Fail(ProtocolViolation(HighBit), rest)
      else if n < (if width == 2 then 126 else 65536) then Fail(ProtocolViolation(NonMinimal), rest)
      else LengthKnown(c, head, masked, n, rest)
  }

  function PayloadStep(head: Head, key: Option<Key>, n: nat, src: seq<Byte>): Step {
    if |src| < n then Wait
    else
      var payload := if key.Some? then Mask(src[..n], key.value) else src[..n];
      if head.opcode.Close? && !ClosePayloadOk(payload) then Fail(InvalidClosePayload, src[n..])
      else Done(Frame(head, key.Some?, key, payload), src[n..])
  }

  /** One turn of the decoder's loop. */
  function DecodeStep(c: Config, st: State, src: seq<Byte>): (s: Step)
    ensures s.Next? ==> |s.rest| < |src|
  {
    match st
    case Poisoned => Fail(ProtocolViolation(Poison), src)
    case AtHeader => HeaderStep(c, src)
    case ExtendedLength(head, masked, width) => LengthStep(c, head, masked, width, src)
    case MaskKey(head, n) => if |src| < 4 then Wait else Next(Payload(head, Some(src[..4]), n), src[4..])
    case Payload(head, key, n) => PayloadStep(head, key, n, src)
  }

  datatype Outcome =
    | Waiting(state: State, rest: seq<Byte>)
    | Got(frame: Frame, rest: seq<Byte>)
    | Failed(error: Error, rest: seq<Byte>)

  /** The loop: until a frame, an error, or too few bytes. */
  function Decode(c: Config, st: State, src: seq<Byte>): Outcome
    decreases |src|
  {
    match DecodeStep(c, st, src)
    case Wait => Waiting(st, src)
    case Next(st', rest) => Decode(c, st', rest)
    case Done(frame, rest) => Got(frame, rest)
    case Fail(error, rest) => Failed(error, rest)
  }

  /** Which error each bad header gets, in the order of the checks. */
  lemma HeaderRefusals(c: Config, src: seq<Byte>)
    requires |src| >= 2
    ensures var s, code, masked, control := DecodeStep(c, AtHeader, src), src[0] % 16, src[1] >= 128, src[0] % 16 >= 8;
      if c.validateReserved && src[0] / 16 % 8 != 0 then s == Fail(ReservedBitsSet, src)
      else if 3 <= code <= 7 || 11 <= code then s == Fail(InvalidOpcode(code), src)
      else if masked != c.role.Server? then s == Fail(if masked then MaskedServerFrame else UnmaskedClientFrame, src)
      else if control && src[0] < 128 then s == Fail(FragmentedControlFrame, src)
      else if control && src[1] % 128 > 125 then s == Fail(ControlFrameTooLarge(src[1] % 128), src)
      else s.Next? || s == Fail(PayloadTooLarge(src[1] % 128, c.maxPayload), src[2..])
  {
    var b := src[0];
    ReservedBits(b);
    assert b / 128 % 2 == 0 <==> b < 128;
    assert src[1] / 128 % 2 == 1 <==> src[1] >= 128;
  }

  /** And each bad extended length: the top bit set, or a length that fits a shorter form. */
  lemma LengthRefusals(c: Config, head: Head, masked: bool, width: Width, src: seq<Byte>)
    requires |src| >= width
    ensures var s := DecodeStep(c, ExtendedLength(head, masked, width), src);
      if width == 8 && src[0] >= 128 then s == Fail(ProtocolViolation(HighBit), src[width..])
      else if (if width == 2 then src[0] == 0 && src[1] < 126 else forall i :: 0 <= i < 6 ==> src[i] == 0)
      then s == Fail(ProtocolViolation(NonMinimal), src[width..])
      else s.Next? || s == Fail(PayloadTooLarge(FromBytes(src[..width]), c.maxPayload), src[width..])
  {
    var field := src[..width];
    if width == 2 { TwoByteNumber(field); } else { EightByteNumber(field); }
  }

  lemma ReservedBits(b: Byte)
    ensures b / 16 % 8 != 0 <==> b / 64 % 2 == 1 || b / 32 % 2 == 1 || b / 16 % 2 == 1
  {
  }

  method PutHeader(dst: seq<Byte>, head: Head, shouldMask: bool, n: nat) returns (out: seq<Byte>)
    ensures out == dst + Header(head, shouldMask, n)
  {
    var maskBit := if shouldMask then 0x80 else 0;
    out := dst + [FirstByte(head)];
    ghost var start := out;
    if n <= 125 {
      out := out + [maskBit + n];
    } else if n <= 65535 {
      out := out + [maskBit + 0x7E];
      out := out + ToBytes(n, 2);
    } else {
      out := out + [maskBit + 0x7F];
      out := out + ToBytes(n, 8);
    }
    assert out == start + LengthBytes(shouldMask, n);
    ConcatAssoc(dst, [FirstByte(head)], LengthBytes(shouldMask, n));
  }

  method PutFrame(role: Role, dst: seq<Byte>, frame: Frame, key: Key) returns (out: seq<Byte>)
    requires Refusal(frame).None?
    ensures Encode(role, frame, key).Ok? && out == dst + Encode(role, frame, key).value
  {
    var shouldMask := role.Client?;
    out := PutHeader(dst, frame.head, shouldMask, |frame.payload|);
    ghost var h := Header(frame.head, shouldMask, |frame.payload|);
    if shouldMask {
      out := out + key;
      out := out + Mask(frame.payload, key);
      ConcatAssoc(dst, h, key);
      ConcatAssoc(dst, h + key, Mask(frame.payload, key));
    } else {
      out := out + frame.payload;
      ConcatAssoc(dst, h, frame.payload);
    }
  }

  class FrameCodec {
    const config: Config
    var state: State

    constructor (config: Config)
      ensures this.config == config && state == AtHeader
    {
      this.config := config;
      state := AtHeader;
    }

    /** Appends a frame to the buffer, or leaves it alone and says why. */
    method EncodeWithEntropy(frame: Frame, dst: seq<Byte>, key: Key) returns (error: Option<Error>, out: seq<Byte>)
      ensures match Encode(config.role, frame, key)
        case Ok(bytes) => error == None && out == dst + bytes
        case Err(e) => error == Some(e) && out == dst
      ensures var r := Encode(config.role, frame, key); r.Ok? ==> Laid(r.value, frame, config.role.Client?, key)
    {
      out := dst;
      var n := |frame.payload|;
      if frame.head.opcode.IsControl() {
        if !frame.head.fin {
          return Some(FragmentedControlFrame), out;
        }
        if n > 125 {
          return Some(ControlFrameTooLarge(n)), out;
        }
      }
      if frame.head.opcode.Close? && !ClosePayloadOk(frame.payload) {
        return Some(InvalidClosePayload), out;
      }
      error := None;
      out := PutFrame(config.role, out, frame, key);
      WireFormat(config.role, frame, key);
    }

    /** Ok(None) asks for more bytes; an error poisons the codec for good. */
    method DecodeNext(src: seq<Byte>) returns (r: Result<Option<Frame>, Error>, rest: seq<Byte>)
      modifies this
      ensures match Decode(config, old(state), src)
        case Waiting(st, left) => r == Ok(None) && state == st && rest == left
        case Got(frame, left) => r == Ok(Some(frame)) && state == AtHeader && rest == left
        case Failed(error, left) => r == Err(error) && state == Poisoned && rest == left
    {
      rest := src;
      while true
        invariant Decode(config, state, rest) == Decode(config, old(state), src)
        decreases |rest|
      {
        match DecodeStep(config, state, rest)
        case Wait =>
          return Ok(None), rest;
        case Next(st, left) =>
          state, rest := st, left;
        case Done(frame, left) =>
          state := AtHeader;
          return Ok(Some(frame)), left;
        case Fail(error, left) =>
          state := Poisoned;
          return Err(error), left;
      }
    }
  }
}
