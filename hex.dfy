/** Lower-case hexadecimal rendering of bytes, as Buffer.toString('hex') and digest('hex') produce it. */
module Hex {
  import opened Basics

  predicate IsDigit(c: char) {
    '0' <= c <= '9' || 'a' <= c <= 'f'
  }

  function Digit(n: int): (c: char)
    requires 0 <= n < 16
    ensures IsDigit(c)
  {
    if n < 10 then (48 + n) as char else (87 + n) as char
  }

  /** Two digits per byte, high nibble first. */
  function Encode(bytes: seq<byte>): (s: string)
    ensures |s| == 2 * |bytes|
    ensures forall k :: 0 <= k < |s| ==> IsDigit(s[k])
  {
    if bytes == [] then ""
    else [Digit(bytes[0] as int / 16), Digit(bytes[0] as int % 16)] + Encode(bytes[1..])
  }

  /** Distinct byte strings render to distinct hex strings. */
  lemma {:induction false} EncodeInjective(a: seq<byte>, b: seq<byte>)
    requires Encode(a) == Encode(b)
    ensures a == b
  {
    if a != [] {
      var ea, eb := Encode(a), Encode(b);
      assert |b| == |a|;
      var x, y := a[0] as int, b[0] as int;
      assert ea[0] == Digit(x / 16) && eb[0] == Digit(y / 16);
      assert ea[1] == Digit(x % 16) && eb[1] == Digit(y % 16);
      assert x / 16 == y / 16 && x % 16 == y % 16;
      assert x == 16 * (x / 16) + x % 16 && y == 16 * (y / 16) + y % 16;
      assert ea[2..] == Encode(a[1..]) && eb[2..] == Encode(b[1..]);
      EncodeInjective(a[1..], b[1..]);
      assert a == [a[0]] + a[1..] && b == [b[0]] + b[1..];
    }
  }
}
