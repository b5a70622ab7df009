/** Finding line ends: scanning for newlines against searching for the two-byte string. */
module CrlfScan {
  import opened Wrappers
  import opened WsBytes

  const CR: Byte := 13
  const LF: Byte := 10

  predicate CrlfAt(buf: seq<Byte>, i: nat) {
    i + 1 < |buf| && buf[i] == CR && buf[i + 1] == LF
  }

  /** Substring search: the first occurrence at or after a position. */
  function Find(buf: seq<Byte>, from: nat): (r: Option<nat>)
    ensures r.Some? ==> from <= r.value && CrlfAt(buf, r.value)
    ensures r.Some? ==> forall j: nat :: from <= j < r.value ==> !CrlfAt(buf, j)
    ensures r.None? ==> forall j: nat :: from <= j ==> !CrlfAt(buf, j)
    decreases |buf| - from
  {
    if from + 1 >= |buf| then None
    else if CrlfAt(buf, from) then Some(from)
    else Find(buf, from + 1)
  }

  /** All non-overlapping occurrences: each search starts after the previous match. */
  function FindAll(buf: seq<Byte>, from: nat): seq<nat>
    decreases |buf| - from
  {
    var r := Find(buf, from);
    if r.None? then [] else [r.value] + FindAll(buf, r.value + 2)
  }

  /** The newline positions that follow a carriage return, in the order of the scan. */
  method FindByNewline(buf: seq<Byte>) returns (r: Option<nat>)
    ensures r == Find(buf, 0)
  {
    for i := 0 to |buf|
      invariant forall j: nat :: j + 1 < i ==> !CrlfAt(buf, j)
    {
      if buf[i] == LF && i > 0 && buf[i - 1] == CR {
        assert CrlfAt(buf, i - 1);
        return Some(i - 1);
      }
    }
    return None;
  }

  method CollectByNewline(buf: seq<Byte>) returns (out: seq<nat>)
    ensures out == FindAll(buf, 0)
    ensures forall p: nat :: p in out <==> CrlfAt(buf, p)
    ensures forall a, b :: 0 <= a < b < |out| ==> out[a] < out[b]
  {
    out := [];
    for i := 0 to |buf|
      invariant forall p: nat :: p in out <==> p + 1 < i && CrlfAt(buf, p)
      invariant forall a, b :: 0 <= a < b < |out| ==> out[a] < out[b]
    {
      if buf[i] == LF && i > 0 && buf[i - 1] == CR {
        assert CrlfAt(buf, i - 1) && forall a :: 0 <= a < |out| ==> out[a] in out;
        out := out + [i - 1];
      }
    }
    AllFound(buf, 0, out);
  }

  lemma TailMember(s: seq<nat>, p: nat)
    requires s != [] && forall a, b :: 0 <= a < b < |s| ==> s[a] < s[b]
    ensures p in s[1..] <==> p in s && p > s[0]
  {
    if p in s && p > s[0] {
      var i :| 0 <= i < |s| && s[i] == p;
      assert s[1..][i - 1] == p;
    }
  }

  /** Occurrences never overlap, so the non-overlapping ones are all of them. */
  lemma {:induction false} AllFound(buf: seq<Byte>, from: nat, s: seq<nat>)
    requires forall p: nat :: p in s <==> from <= p && CrlfAt(buf, p)
    requires forall a, b :: 0 <= a < b < |s| ==> s[a] < s[b]
    ensures s == FindAll(buf, from)
    decreases |buf| - from
  {
    var r := Find(buf, from);
    assert s == [] || s[0] in s;
    if r.Some? {
      assert r.value in s;
      assert s[0] == r.value;
      forall p: nat ensures p in s[1..] <==> r.value + 2 <= p && CrlfAt(buf, p) {
        TailMember(s, p);
        assert p == r.value + 1 ==> !CrlfAt(buf, p);
      }
      AllFound(buf, r.value + 2, s[1..]);
    }
  }
}
