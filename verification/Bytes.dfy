/** Bytes, byte sums and signed little-endian words, shared by the wire formats. */
module Bytes {

  type byte = x: int | 0 <= x < 256

  function Sum(s: seq<byte>): nat {
    if s == [] then 0 else Sum(s[..|s| - 1]) + s[|s| - 1]
  }

  lemma SumOfOneMore(s: seq<byte>, b: byte)
    ensures Sum(s + [b]) == Sum(s) + b
    ensures Sum([]) == 0
  {
    assert (s + [b])[..|s + [b]| - 1] == s;
  }

  lemma {:induction false} SumOfJoin(a: seq<byte>, b: seq<byte>)
    ensures Sum(a + b) == Sum(a) + Sum(b)
  {
    if b == [] {
      assert a + b == a;
    } else {
      SumOfJoin(a, b[..|b| - 1]);
      assert (a + b)[..|a + b| - 1] == a + b[..|b| - 1];
    }
  }

  lemma {:induction false} SumAfterChange(s: seq<byte>, k: nat, v: byte)
    requires k < |s|
    ensures Sum(s[k := v]) == Sum(s) - s[k] + v
  {
    assert s == s[..k] + [s[k]] + s[k + 1..];
    assert s[k := v] == s[..k] + [v] + s[k + 1..];
    SumOfJoin(s[..k] + [s[k]], s[k + 1..]);
    SumOfJoin(s[..k] + [v], s[k + 1..]);
    SumOfJoin(s[..k], [s[k]]);
    SumOfJoin(s[..k], [v]);
    SumOfOneMore([], v);
    SumOfOneMore([], s[k]);
    assert [] + [v] == [v] && [] + [s[k]] == [s[k]];
  }

  /** A little-endian signed 16-bit word. */
  function DecodeI16(low: byte, high: byte): int {
    var raw := low + 256 * high;
    if raw >= 0x8000 then raw - 0x1_0000 else raw
  }

  /** Every signed 16-bit value is read back from its two's-complement bytes, and from no other pair. */
  lemma I16RoundTrip(value: int, low: byte, high: byte)
    requires -0x8000 <= value < 0x8000
    ensures DecodeI16(low, high) == value <==>
              var raw := if value < 0 then value + 0x1_0000 else value; low == raw % 256 && high == raw / 256
  {}
}
