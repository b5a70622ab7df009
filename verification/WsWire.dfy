/** The layout of a frame on the wire, byte by byte (section 5.2 of RFC 6455). */
module WsWire {
  import opened WsBytes

  /** How many bytes the length takes up after the second byte. */
  function LengthWidth(n: nat): nat { if n <= 125 then 0 else if n <= 65535 then 2 else 8 }

  ghost predicate FirstByteLaid(b: Byte, fin: bool, rsv1: bool, rsv2: bool, rsv3: bool, opcode: nat) {
    && (b / 128 == 1 <==> fin) && (b / 64 % 2 == 1 <==> rsv1) && (b / 32 % 2 == 1 <==> rsv2)
    && (b / 16 % 2 == 1 <==> rsv3) && b % 16 == opcode
  }

  /** The mask bit, and the length in seven bits, or 126 or 127 if it follows in two or eight bytes. */
  ghost predicate SecondByteLaid(b: Byte, masked: bool, n: nat) {
    (b / 128 == 1 <==> masked) && b % 128 == if n <= 125 then n else if n <= 65535 then 126 else 127
  }

  ghost predicate BigEndian(s: seq<Byte>, n: nat) {
    forall i :: 0 <= i < |s| ==> s[i] == n / Pow256(|s| - 1 - i) % 256
  }

  /** The payload, each byte in exclusive or with the key's in turn if there is one. */
  ghost predicate DataLaid(s: seq<Byte>, masked: bool, key: Key, payload: seq<Byte>) {
    && |s| == |payload|
    && forall i :: 0 <= i < |s| ==> if masked then BitsDiffer(s[i], payload[i], key[i % 4]) else s[i] == payload[i]
  }

  ghost predicate FrameLaid(w: seq<Byte>, fin: bool, rsv1: bool, rsv2: bool, rsv3: bool, opcode: nat, masked: bool,
                            key: Key, payload: seq<Byte>)
  {
    var start := 2 + LengthWidth(|payload|);
    var data := start + if masked then 4 else 0;
    && |w| == data + |payload|
    && FirstByteLaid(w[0], fin, rsv1, rsv2, rsv3, opcode)
    && SecondByteLaid(w[1], masked, |payload|)
    && BigEndian(w[2..start], |payload|)
    && (masked ==> w[start..data] == key)
    && DataLaid(w[data..], masked, key, payload)
  }

  lemma ToBytesBigEndian(n: nat, k: nat)
    ensures BigEndian(ToBytes(n, k), n)
  {
    forall i | 0 <= i < k ensures ToBytes(n, k)[i] == n / Pow256(k - 1 - i) % 256 { ToBytesAt(n, k, i); }
  }

  lemma MaskedDataLaid(key: Key, payload: seq<Byte>)
    ensures DataLaid(Mask(payload, key), true, key, payload)
  {
    forall i | 0 <= i < |payload| ensures BitsDiffer(Mask(payload, key)[i], payload[i], key[i % 4]) {
      XorIsBitwise(payload[i], key[i % 4]);
    }
  }

  /** The parts of a frame one after the other. */
  lemma PartsOf(w: seq<Byte>, first: Byte, second: Byte, ext: seq<Byte>, used: seq<Byte>, data: seq<Byte>)
    requires w == [first, second] + ext + used + data
    ensures |w| == 2 + |ext| + |used| + |data| && w[0] == first && w[1] == second
    ensures w[2..2 + |ext|] == ext && w[2 + |ext|..2 + |ext| + |used|] == used && w[2 + |ext| + |used|..] == data
  {
  }
}
