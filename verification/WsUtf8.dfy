/**
 UTF-8 as the close reason is checked: by the ranges of the bytes of each sequence.  That accepts
 exactly the encodings of sequences of Unicode scalar values (section 3 of RFC 3629).
 */
module WsUtf8 {
  import opened WsBytes

  predicate Continues(s: seq<Byte>, i: nat, lo: Byte, hi: Byte) {
    i < |s| && lo <= s[i] <= hi
  }

  /** The length of the well-formed UTF-8 sequence that s starts with, zero if there is none. */
  function Utf8Length(s: seq<Byte>): (n: nat)
    requires s != []
    ensures n <= |s|
  {
    var b := s[0];
    var tail2 := Continues(s, 2, 0x80, 0xBF);
    var tail3 := tail2 && Continues(s, 3, 0x80, 0xBF);
    if b < 0x80 then 1
    else if 0xC2 <= b <= 0xDF && Continues(s, 1, 0x80, 0xBF) then 2
    else if b == 0xE0 && Continues(s, 1, 0xA0, 0xBF) && tail2 then 3
    else if (0xE1 <= b <= 0xEC || 0xEE <= b <= 0xEF) && Continues(s, 1, 0x80, 0xBF) && tail2 then 3
    else if b == 0xED && Continues(s, 1, 0x80, 0x9F) && tail2 then 3
    else if b == 0xF0 && Continues(s, 1, 0x90, 0xBF) && tail3 then 4
    else if 0xF1 <= b <= 0xF3 && Continues(s, 1, 0x80, 0xBF) && tail3 then 4
    else if b == 0xF4 && Continues(s, 1, 0x80, 0x8F) && tail3 then 4
    else 0
  }

  predicate Utf8(s: seq<Byte>)
    decreases |s|
  {
    s == [] || (Utf8Length(s) > 0 && Utf8(s[Utf8Length(s)..]))
  }

  // What it accepts.

  /** Unicode without the surrogates. */
  predicate Scalar(c: nat) { c < 0xD800 || 0xE000 <= c < 0x110000 }

  function EncodeScalar(c: nat): (s: seq<Byte>)
    requires Scalar(c)
    ensures s != []
  {
    if c < 0x80 then [c]
    else if c < 0x800 then [0xC0 + c / 0x40, 0x80 + c % 0x40]
    else if c < 0x10000 then [0xE0 + c / 0x1000, 0x80 + c / 0x40 % 0x40, 0x80 + c % 0x40]
    else [0xF0 + c / 0x40000, 0x80 + c / 0x1000 % 0x40, 0x80 + c / 0x40 % 0x40, 0x80 + c % 0x40]
  }

  ghost predicate Scalars(cs: seq<nat>) { forall i :: 0 <= i < |cs| ==> Scalar(cs[i]) }

  function EncodeAll(cs: seq<nat>): seq<Byte>
    requires Scalars(cs)
  {
    if cs == [] then [] else EncodeScalar(cs[0]) + EncodeAll(cs[1..])
  }

  ghost predicate Encodes(cs: seq<nat>, s: seq<Byte>) { Scalars(cs) && EncodeAll(cs) == s }

  /** An encoded scalar is recognised, with its length. */
  lemma ScalarLength(c: nat, tail: seq<Byte>)
    requires Scalar(c)
    ensures var s := EncodeScalar(c) + tail; Utf8Length(s) == |EncodeScalar(c)|
  {
    var e, s := EncodeScalar(c), EncodeScalar(c) + tail;
    assert forall i :: 0 <= i < |e| ==> s[i] == e[i];
    if c >= 0x10000 {
      FourBytes(c);
    } else if c >= 0x800 {
      ThreeBytes(c);
    } else if c >= 0x80 {
      TwoBytes(c);
    }
  }

  lemma TwoBytes(c: nat)
    requires 0x80 <= c < 0x800
    ensures 2 <= c / 0x40 < 0x20 && c % 0x40 < 0x40
  {
  }

  lemma ThreeBytes(c: nat)
    requires 0x800 <= c < 0x10000
    ensures c / 0x1000 < 0x10 && c / 0x40 % 0x40 < 0x40 && c % 0x40 < 0x40
    ensures c / 0x1000 == 0 ==> 0x20 <= c / 0x40 % 0x40
    ensures c / 0x1000 == 0xD ==> (c < 0xD800 <==> c / 0x40 % 0x40 < 0x20) && c < 0xE000
  {
  }

  lemma FourBytes(c: nat)
    requires 0x10000 <= c < 0x110000
    ensures c / 0x40000 <= 4 && c / 0x1000 % 0x40 < 0x40 && c / 0x40 % 0x40 < 0x40 && c % 0x40 < 0x40
    ensures c / 0x40000 == 0 ==> 0x10 <= c / 0x1000 % 0x40
    ensures c / 0x40000 == 4 ==> c / 0x1000 % 0x40 < 0x10
  {
  }

  lemma {:induction false} EncodedIsUtf8(cs: seq<nat>)
    requires Scalars(cs)
    ensures Utf8(EncodeAll(cs))
  {
    if cs != [] {
      var e, tail := EncodeScalar(cs[0]), EncodeAll(cs[1..]);
      EncodedIsUtf8(cs[1..]);
      ScalarLength(cs[0], tail);
      assert (e + tail)[|e|..] == tail;
    }
  }

  /** The scalar value that a well-formed sequence encodes. */
  lemma LengthScalar(s: seq<Byte>) returns (c: nat)
    requires s != [] && Utf8Length(s) > 0
    ensures Scalar(c) && EncodeScalar(c) == s[..Utf8Length(s)]
  {
    var n := Utf8Length(s);
    if n == 1 {
      c := s[0];
    } else if n == 2 {
      c := TwoFrom(s[0] - 0xC0, s[1] - 0x80);
    } else if n == 3 {
      c := ThreeFrom(s[0] - 0xE0, s[1] - 0x80, s[2] - 0x80);
    } else {
      c := FourFrom(s[0] - 0xF0, s[1] - 0x80, s[2] - 0x80, s[3] - 0x80);
    }
    assert EncodeScalar(c) == s[..n];
  }

  lemma TwoFrom(x: nat, y: nat) returns (c: nat)
    requires 2 <= x < 0x20 && y < 0x40
    ensures 0x80 <= c < 0x800 && c / 0x40 == x && c % 0x40 == y
  {
    c := x * 0x40 + y;
  }

  lemma ThreeFrom(x: nat, y: nat, z: nat) returns (c: nat)
    requires x < 0x10 && y < 0x40 && z < 0x40 && (x == 0 ==> 0x20 <= y) && (x == 0xD ==> y < 0x20)
    ensures 0x800 <= c < 0x10000 && Scalar(c)
    ensures c / 0x1000 == x && c / 0x40 % 0x40 == y && c % 0x40 == z
  {
    c := x * 0x1000 + y * 0x40 + z;
  }

  lemma FourFrom(x: nat, y: nat, z: nat, w: nat) returns (c: nat)
    requires x <= 4 && y < 0x40 && z < 0x40 && w < 0x40 && (x == 0 ==> 0x10 <= y) && (x == 4 ==> y < 0x10)
    ensures 0x10000 <= c < 0x110000
    ensures c / 0x40000 == x && c / 0x1000 % 0x40 == y && c / 0x40 % 0x40 == z && c % 0x40 == w
  {
    var xy := x * 0x40 + y;
    var xyz := xy * 0x40 + z;
    c := xyz * 0x40 + w;
    assert c / 0x40 == xyz && c / 0x1000 == xy && c / 0x40000 == x;
  }

  lemma {:induction false} Utf8Encodes(s: seq<Byte>) returns (cs: seq<nat>)
    requires Utf8(s)
    ensures Encodes(cs, s)
    decreases |s|
  {
    if s == [] {
      cs := [];
    } else {
      var n := Utf8Length(s);
      var c := LengthScalar(s);
      var rest := Utf8Encodes(s[n..]);
      cs := [c] + rest;
      assert cs[1..] == rest && s == s[..n] + s[n..];
    }
  }

  /** The byte ranges accept exactly the encodings of sequences of scalar values. */
  lemma Utf8Iff(s: seq<Byte>)
    ensures Utf8(s) <==> exists cs :: Encodes(cs, s)
  {
    if Utf8(s) { var cs := Utf8Encodes(s); }
    if cs :| Encodes(cs, s) { EncodedIsUtf8(cs); }
  }
}
