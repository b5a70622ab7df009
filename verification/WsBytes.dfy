/** Bytes as numbers below 256: exclusive or, big-endian integers, and the payload mask. */
module WsBytes {
  import opened Arithmetic
  import opened Lcg

  type Byte = x: nat | x < 256

  // Exclusive or, bit by bit.

  function XorBits(a: nat, b: nat, k: nat): (c: nat)
    ensures c < Pow2(k)
  {
    if k == 0 then 0 else (a % 2 + b % 2) % 2 + 2 * XorBits(a / 2, b / 2, k - 1)
  }

  lemma EightBits()
    ensures Pow2(8) == 256
  {
    assert Pow2(4) == 16;
  }

  function Xor(a: Byte, b: Byte): Byte {
    EightBits();
    XorBits(a, b, 8)
  }

  lemma {:induction false} XorBitsTwice(a: nat, b: nat, k: nat)
    requires a < Pow2(k)
    ensures XorBits(XorBits(a, b, k), b, k) == a
  {
    if k > 0 {
      var bit, rest := (a % 2 + b % 2) % 2, XorBits(a / 2, b / 2, k - 1);
      calc {
        XorBits(XorBits(a, b, k), b, k);
      ==
        XorBits(bit + 2 * rest, b, k);
      == { XorBitsSplit(bit, rest, b, k); }
        (bit + b % 2) % 2 + 2 * XorBits(rest, b / 2, k - 1);
      == { XorBitsTwice(a / 2, b / 2, k - 1); }
        (bit + b % 2) % 2 + 2 * (a / 2);
      == { LowBitTwice(a % 2, b % 2); }
        a % 2 + 2 * (a / 2);
      ==
        a;
      }
    }
  }

  lemma XorBitsSplit(bit: nat, rest: nat, b: nat, k: nat)
    requires bit < 2 && k > 0
    ensures XorBits(bit + 2 * rest, b, k) == (bit + b % 2) % 2 + 2 * XorBits(rest, b / 2, k - 1)
  {
    LowBit(bit, rest);
  }

  lemma LowBit(bit: nat, rest: nat)
    requires bit < 2
    ensures (bit + 2 * rest) % 2 == bit && (bit + 2 * rest) / 2 == rest
  {
  }

  lemma LowBitTwice(a: nat, b: nat)
    requires a < 2 && b < 2
    ensures ((a + b) % 2 + b) % 2 == a
  {
  }

  /** Bit i of c is set exactly when the bits i of a and of b differ. */
  ghost predicate BitsDiffer(c: Byte, a: Byte, b: Byte) {
    forall i: nat :: i < 8 ==> BitDiffers(c, a, b, i)
  }

  ghost predicate BitDiffers(c: nat, a: nat, b: nat, i: nat) {
    c / Pow2(i) % 2 == (a / Pow2(i) + b / Pow2(i)) % 2
  }

  lemma HalfAgain(a: nat, i: nat)
    requires i > 0
    ensures a / Pow2(i) == a / 2 / Pow2(i - 1)
  {
    DivDiv(a, 2, Pow2(i - 1));
  }

  lemma SumBit(a: nat, b: nat)
    ensures (a + b) % 2 == (a % 2 + b % 2) % 2
  {
  }

  lemma BitUp(c: nat, a: nat, b: nat, i: nat)
    requires i > 0 && BitDiffers(c / 2, a / 2, b / 2, i - 1)
    ensures BitDiffers(c, a, b, i)
  {
    HalfAgain(c, i);
    HalfAgain(a, i);
    HalfAgain(b, i);
  }

  lemma LowBitDiffers(c: nat, a: nat, b: nat)
    requires c % 2 == (a % 2 + b % 2) % 2
    ensures BitDiffers(c, a, b, 0)
  {
    SumBit(a, b);
  }

  lemma {:induction false} XorBitsAt(a: nat, b: nat, k: nat, i: nat) returns (c: nat)
    requires i < k
    ensures c == XorBits(a, b, k) && BitDiffers(c, a, b, i)
  {
    c := XorBits(a, b, k);
    XorBitsHalf(a, b, k);
    if i == 0 {
      LowBitDiffers(c, a, b);
    } else {
      var rest := XorBitsAt(a / 2, b / 2, k - 1, i - 1);
      BitUp(c, a, b, i);
    }
  }

  lemma XorBitsHalf(a: nat, b: nat, k: nat)
    requires k > 0
    ensures XorBits(a, b, k) % 2 == (a % 2 + b % 2) % 2
    ensures XorBits(a, b, k) / 2 == XorBits(a / 2, b / 2, k - 1)
  {
    LowBit((a % 2 + b % 2) % 2, XorBits(a / 2, b / 2, k - 1));
  }

  /** It is the exclusive or of the bits. */
  lemma XorIsBitwise(a: Byte, b: Byte)
    ensures BitsDiffer(Xor(a, b), a, b)
  {
    forall i: nat | i < 8 ensures BitDiffers(Xor(a, b), a, b, i) {
      var c := XorBitsAt(a, b, 8, i);
    }
  }

  lemma XorTwice(a: Byte, b: Byte)
    ensures Xor(Xor(a, b), b) == a
  {
    EightBits();
    XorBitsTwice(a, b, 8);
  }

  // Big-endian numbers.

  function Pow256(k: nat): (p: nat)
    ensures p >= 1
  {
    if k == 0 then 1 else 256 * Pow256(k - 1)
  }

  function ToBytes(n: nat, k: nat): (s: seq<Byte>)
    ensures |s| == k
  {
    if k == 0 then [] else ToBytes(n / 256, k - 1) + [n % 256]
  }

  function FromBytes(s: seq<Byte>): (n: nat)
    ensures n < Pow256(|s|)
  {
    if s == [] then 0 else 256 * FromBytes(s[..|s| - 1]) + s[|s| - 1]
  }

  lemma {:induction false} FromToBytes(n: nat, k: nat)
    requires n < Pow256(k)
    ensures FromBytes(ToBytes(n, k)) == n
  {
    if k > 0 {
      FromToBytes(n / 256, k - 1);
      assert ToBytes(n, k)[..k - 1] == ToBytes(n / 256, k - 1);
    }
  }

  lemma {:induction false} ToFromBytes(s: seq<Byte>)
    ensures ToBytes(FromBytes(s), |s|) == s
  {
    if s != [] {
      var front, last := s[..|s| - 1], s[|s| - 1];
      ToFromBytes(front);
      LowByte(FromBytes(front), last);
      assert s == front + [last];
    }
  }

  lemma LowByte(n: nat, b: Byte)
    ensures (256 * n + b) / 256 == n && (256 * n + b) % 256 == b
  {
  }

  /** The most significant byte first. */
  lemma {:induction false} ToBytesAt(n: nat, k: nat, i: nat)
    requires i < k
    ensures ToBytes(n, k)[i] == n / Pow256(k - 1 - i) % 256
  {
    if i < k - 1 {
      ToBytesAt(n / 256, k - 1, i);
      ByteUp(n, k - 1 - i);
    }
  }

  lemma ByteUp(n: nat, j: nat)
    requires j > 0
    ensures n / Pow256(j) == n / 256 / Pow256(j - 1)
  {
    DivDiv(n, 256, Pow256(j - 1));
  }

  lemma TwoByteNumber(s: seq<Byte>)
    requires |s| == 2
    ensures FromBytes(s) == (s[0] as nat) * 256 + s[1]
  {
    assert s[..1][..0] == [] && FromBytes(s[..1]) == s[0];
  }

  /** The first byte counts for 256^(|s| - 1). */
  lemma {:induction false} FromBytesFirst(s: seq<Byte>)
    requires s != []
    ensures FromBytes(s) == (s[0] as nat) * Pow256(|s| - 1) + FromBytes(s[1..])
  {
    if |s| == 1 {
      assert s[..0] == [] && s[1..] == [];
    } else {
      var front, last := s[..|s| - 1], s[|s| - 1];
      FromBytesFirst(front);
      assert s[1..][..|s| - 2] == front[1..];
      var top: nat, p, rest := s[0], Pow256(|s| - 2), FromBytes(front[1..]);
      assert 256 * (top * p + rest) + last == top * (256 * p) + (256 * rest + last) by {
        Regroup(top, p);
      }
    }
  }

  lemma Regroup(a: nat, p: nat)
    ensures 256 * (a * p) == a * (256 * p)
  {
  }

  lemma {:induction false} FromBytesZero(s: seq<Byte>)
    ensures FromBytes(s) == 0 <==> forall i :: 0 <= i < |s| ==> s[i] == 0
  {
    if s != [] {
      var front := s[..|s| - 1];
      FromBytesZero(front);
      assert forall i :: 0 <= i < |front| ==> front[i] == s[i];
    }
  }

  lemma EightByteNumber(s: seq<Byte>)
    requires |s| == 8
    ensures FromBytes(s) >= 0x8000_0000_0000_0000 <==> s[0] >= 128
    ensures FromBytes(s) < 65536 <==> forall i :: 0 <= i < 6 ==> s[i] == 0
  {
    TopByte(s);
    LowTwoBytes(s);
  }

  lemma TopByte(s: seq<Byte>)
    requires |s| == 8
    ensures FromBytes(s) >= 0x8000_0000_0000_0000 <==> s[0] >= 128
  {
    FromBytesFirst(s);
    TwoAndEight();
    var p := Pow256(7);
    assert 256 * p == Pow256(8);
  }

  lemma LowTwoBytes(s: seq<Byte>)
    requires |s| == 8
    ensures FromBytes(s) < 65536 <==> forall i :: 0 <= i < 6 ==> s[i] == 0
  {
    var seven := s[..7];
    var six := seven[..6];
    FromBytesZero(six);
    assert forall i :: 0 <= i < 6 ==> six[i] == s[i];
    assert FromBytes(s) == 256 * (256 * FromBytes(six) + s[6]) + s[7];
  }

  lemma TwoAndEight()
    ensures Pow256(2) == 65536 && Pow256(8) == 0x1_0000_0000_0000_0000
  {
    assert Pow256(2) == 65536;
    assert Pow256(4) == 0x1_0000_0000;
    assert Pow256(6) == 0x1_0000_0000_0000;
  }

  // The mask.

  type Key = s: seq<Byte> | |s| == 4 witness [0, 0, 0, 0]

  function Mask(payload: seq<Byte>, key: Key): (s: seq<Byte>)
    ensures |s| == |payload|
    ensures forall i :: 0 <= i < |s| ==> s[i] == Xor(payload[i], key[i % 4])
  {
    seq(|payload|, i requires 0 <= i < |payload| => Xor(payload[i], key[i % 4]))
  }

  /** Masking twice with one key gives the payload back. */
  lemma MaskTwice(payload: seq<Byte>, key: Key)
    ensures Mask(Mask(payload, key), key) == payload
  {
    forall i | 0 <= i < |payload| ensures Mask(Mask(payload, key), key)[i] == payload[i] {
      XorTwice(payload[i], key[i % 4]);
    }
  }

  /** The loop over the payload in place. */
  method ApplyMask(payload: array<Byte>, key: Key)
    modifies payload
    ensures payload[..] == Mask(old(payload[..]), key)
    ensures forall j :: 0 <= j < payload.Length ==> BitsDiffer(payload[j], old(payload[j]), key[j % 4])
  {
    for i := 0 to payload.Length
      invariant forall j :: 0 <= j < i ==> payload[j] == Xor(old(payload[j]), key[j % 4])
      invariant forall j :: i <= j < payload.Length ==> payload[j] == old(payload[j])
    {
      payload[i] := Xor(payload[i], key[i % 4]);
    }
    forall j | 0 <= j < payload.Length ensures BitsDiffer(payload[j], old(payload[j]), key[j % 4]) {
      XorIsBitwise(old(payload[j]), key[j % 4]);
    }
  }
}
