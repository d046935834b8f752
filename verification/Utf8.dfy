/** UTF-8, as `Buffer.from(value, "utf8")` produces it for a well-formed string.
    A Dafny `char` is a Unicode scalar value, so a `string` here is exactly a
    well-formed JavaScript string: lone surrogates have no counterpart. */
module Utf8 {
  import opened Wrappers

  type byte = b: int | 0 <= b < 256

  function EncodeScalar(c: char): (bytes: seq<byte>)
    ensures 1 <= |bytes| <= 4
  {
    var n := c as int;
    if n < 0x80 then [n]
    else if n < 0x800 then [0xC0 + n / 0x40, 0x80 + n % 0x40]
    else if n < 0x1_0000 then [0xE0 + n / 0x1000, 0x80 + n / 0x40 % 0x40, 0x80 + n % 0x40]
    else [0xF0 + n / 0x4_0000, 0x80 + n / 0x1000 % 0x40, 0x80 + n / 0x40 % 0x40, 0x80 + n % 0x40]
  }

  function Encode(s: string): (bytes: seq<byte>) {
    if s == [] then [] else EncodeScalar(s[0]) + Encode(s[1..])
  }

  /** The number of bytes that the sequence starting with lead byte `b` takes. */
  function SequenceLength(b: byte): (n: nat)
    ensures 1 <= n <= 4
  {
    if b < 0xC0 then 1 else if b < 0xE0 then 2 else if b < 0xF0 then 3 else 4
  }

  /** The six payload bits of a continuation byte. */
  function Continuation(b: byte): int {
    b - 0x80
  }

  function CodePoint(bytes: seq<byte>): int
    requires bytes != [] && |bytes| == SequenceLength(bytes[0])
  {
    var lead: int := bytes[0];
    if |bytes| == 1 then lead
    else if |bytes| == 2 then (lead - 0xC0) * 0x40 + Continuation(bytes[1])
    else if |bytes| == 3 then (lead - 0xE0) * 0x1000 + Continuation(bytes[1]) * 0x40 + Continuation(bytes[2])
    else
      (lead - 0xF0) * 0x4_0000 + Continuation(bytes[1]) * 0x1000 + Continuation(bytes[2]) * 0x40
      + Continuation(bytes[3])
  }

  predicate IsScalar(n: int) {
    0 <= n < 0xD800 || 0xE000 <= n < 0x11_0000
  }

  function Decode(bytes: seq<byte>): Option<string>
    decreases |bytes|
  {
    if bytes == [] then Some([])
    else
      var n := SequenceLength(bytes[0]);
      if n > |bytes| then None
      else
        var code := CodePoint(bytes[..n]);
        match Decode(bytes[n..])
        case None => None
        case Some(rest) => if IsScalar(code) then Some([code as char] + rest) else None
  }

  lemma EncodeScalarDecodes(c: char)
    ensures |EncodeScalar(c)| == SequenceLength(EncodeScalar(c)[0])
    ensures CodePoint(EncodeScalar(c)) == c as int
  {
    var n := c as int;
    assert n / 0x40 / 0x40 == n / 0x1000;
    assert n / 0x1000 / 0x40 == n / 0x4_0000;
  }

  /** No two well-formed strings share an encoding: decoding recovers the string. */
  lemma {:induction false} DecodeEncode(s: string)
    ensures Decode(Encode(s)) == Some(s)
  {
    if s == [] {
    } else {
      var head := EncodeScalar(s[0]);
      var bytes := Encode(s);
      EncodeScalarDecodes(s[0]);
      DecodeEncode(s[1..]);
      assert bytes[..|head|] == head && bytes[|head|..] == Encode(s[1..]);
      assert [s[0]] + s[1..] == s;
    }
  }
}
