/** Unpadded base64url, section 5 of RFC 4648, as `toString("base64url")` writes it. */
module Base64Url {
  import opened Wrappers
  import opened Utf8

  type sextet = v: int | 0 <= v < 64

  /** Table 2 of RFC 4648: A-Z, a-z, 0-9, then '-' and '_'. */
  function ToChar(v: sextet): char {
    if v < 26 then ('A' as int + v) as char
    else if v < 52 then ('a' as int + (v - 26)) as char
    else if v < 62 then ('0' as int + (v - 52)) as char
    else if v == 62 then '-'
    else '_'
  }

  function FromChar(c: char): Option<sextet> {
    if 'A' <= c <= 'Z' then Some(c as int - 'A' as int)
    else if 'a' <= c <= 'z' then Some(c as int - 'a' as int + 26)
    else if '0' <= c <= '9' then Some(c as int - '0' as int + 52)
    else if c == '-' then Some(62)
    else if c == '_' then Some(63)
    else None
  }

  lemma FromCharToChar(v: sextet)
    ensures FromChar(ToChar(v)) == Some(v)
  {
  }

  /** Three bytes make four sextets; a tail of one byte makes two, a tail of two makes three. */
  function Sextets(bytes: seq<byte>): seq<sextet> {
    if |bytes| == 0 then []
    else if |bytes| == 1 then [bytes[0] / 4, bytes[0] % 4 * 16]
    else if |bytes| == 2 then [bytes[0] / 4, bytes[0] % 4 * 16 + bytes[1] / 16, bytes[1] % 16 * 4]
    else
      [bytes[0] / 4, bytes[0] % 4 * 16 + bytes[1] / 16, bytes[1] % 16 * 4 + bytes[2] / 64, bytes[2] % 64]
      + Sextets(bytes[3..])
  }

  function Bytes(v: seq<sextet>): seq<byte> {
    if |v| <= 1 then []
    else
      var a: int, b: int := v[0], v[1];
      if |v| == 2 then [a * 4 + b / 16]
      else
        var c: int := v[2];
        if |v| == 3 then [a * 4 + b / 16, b % 16 * 16 + c / 4]
        else
          var d: int := v[3];
          [a * 4 + b / 16, b % 16 * 16 + c / 4, c % 4 * 64 + d] + Bytes(v[4..])
  }

  function ToChars(v: seq<sextet>): (s: string)
    ensures |s| == |v| && forall i :: 0 <= i < |v| ==> s[i] == ToChar(v[i])
  {
    if v == [] then [] else [ToChar(v[0])] + ToChars(v[1..])
  }

  function FromChars(s: string): Option<seq<sextet>> {
    if s == [] then Some([])
    else
      match (FromChar(s[0]), FromChars(s[1..]))
      case (Some(v), Some(rest)) => Some([v] + rest)
      case _ => None
  }

  function Encode(bytes: seq<byte>): string {
    ToChars(Sextets(bytes))
  }

  function Decode(s: string): Option<seq<byte>> {
    match FromChars(s)
    case None => None
    case Some(v) => Some(Bytes(v))
  }

  lemma {:induction false} FromCharsToChars(v: seq<sextet>)
    ensures FromChars(ToChars(v)) == Some(v)
  {
    if v == [] {
    } else {
      FromCharToChar(v[0]);
      FromCharsToChars(v[1..]);
      assert ToChars(v)[1..] == ToChars(v[1..]);
      assert [v[0]] + v[1..] == v;
    }
  }

  lemma {:induction false} BytesSextets(bytes: seq<byte>)
    ensures Bytes(Sextets(bytes)) == bytes
  {
    if |bytes| < 3 {
    } else {
      var v := Sextets(bytes);
      BytesSextets(bytes[3..]);
      assert v[4..] == Sextets(bytes[3..]);
      assert bytes[..3] + bytes[3..] == bytes;
    }
  }

  /** Section 5 of RFC 4648: every byte string, whatever its length modulo 3, decodes back. */
  lemma DecodeEncode(bytes: seq<byte>)
    ensures Decode(Encode(bytes)) == Some(bytes)
  {
    FromCharsToChars(Sextets(bytes));
    BytesSextets(bytes);
  }

  /** The text has no padding and no character outside the URL-safe alphabet, ':' included. */
  lemma {:induction false} EncodeShape(bytes: seq<byte>)
    ensures |Encode(bytes)| == (4 * |bytes| + 2) / 3
    ensures forall c :: c in Encode(bytes) ==> FromChar(c).Some? && c != ':' && c != '='
  {
    SextetCount(bytes);
    forall c | c in Encode(bytes) ensures FromChar(c).Some? {
      var i :| 0 <= i < |Encode(bytes)| && Encode(bytes)[i] == c;
      FromCharToChar(Sextets(bytes)[i]);
    }
  }

  lemma {:induction false} SextetCount(bytes: seq<byte>)
    ensures |Sextets(bytes)| == (4 * |bytes| + 2) / 3
  {
    if |bytes| < 3 {
    } else {
      SextetCount(bytes[3..]);
    }
  }
}
