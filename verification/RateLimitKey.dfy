/** The Redis key of a rate-limit counter (verifier-sdk/src/rate-limiter.ts). */
module RateLimitKey {
  import opened Wrappers
  import Base64Url
  import Utf8

  const RATE_LIMIT_KEY_PREFIX: string := "agentcred:ratelimit:v1:"

  datatype Context = Context(principal: string, audience: string, requestedAction: string)

  function EncodeKeyPart(value: string): string {
    Base64Url.Encode(Utf8.Encode(value))
  }

  function Of(context: Context): string {
    RATE_LIMIT_KEY_PREFIX
    + Joined(EncodeKeyPart(context.principal),
             Joined(EncodeKeyPart(context.audience), EncodeKeyPart(context.requestedAction)))
  }

  function Joined(left: string, right: string): string {
    left + ":" + right
  }

  function DecodeKeyPart(part: string): Option<string> {
    match Base64Url.Decode(part)
    case None => None
    case Some(bytes) => Utf8.Decode(bytes)
  }

  /** Everything before the first ':' and everything after it. */
  function SplitAtColon(s: string): Option<(string, string)> {
    if s == [] then None
    else if s[0] == ':' then Some(([], s[1..]))
    else
      match SplitAtColon(s[1..])
      case None => None
      case Some((left, right)) => Some(([s[0]] + left, right))
  }

  function Parse(key: string): Option<Context> {
    if !(RATE_LIMIT_KEY_PREFIX <= key) then None
    else
      match SplitAtColon(key[|RATE_LIMIT_KEY_PREFIX|..])
      case None => None
      case Some((first, tail)) =>
        match SplitAtColon(tail)
        case None => None
        case Some((second, third)) =>
          match (DecodeKeyPart(first), DecodeKeyPart(second), DecodeKeyPart(third))
          case (Some(principal), Some(audience), Some(action)) => Some(Context(principal, audience, action))
          case _ => None
  }

  lemma KeyPartRoundTrip(value: string)
    ensures DecodeKeyPart(EncodeKeyPart(value)) == Some(value)
    ensures ':' !in EncodeKeyPart(value)
  {
    var bytes := Utf8.Encode(value);
    Utf8.DecodeEncode(value);
    Base64Url.DecodeEncode(bytes);
    Base64Url.EncodeShape(bytes);
  }

  lemma {:induction false} SplitAtFirstColon(left: string, right: string)
    requires ':' !in left
    ensures SplitAtColon(Joined(left, right)) == Some((left, right))
  {
    var s := Joined(left, right);
    if left == [] {
      assert s[1..] == right;
    } else {
      SplitAtFirstColon(left[1..], right);
      assert s[1..] == Joined(left[1..], right);
      assert s[0] == left[0] && [left[0]] + left[1..] == left;
    }
  }

  /** A key can be parsed back to the three parts it was made from. */
  lemma ParseOf(context: Context)
    ensures Parse(Of(context)) == Some(context)
  {
    KeyPartRoundTrip(context.principal);
    KeyPartRoundTrip(context.audience);
    KeyPartRoundTrip(context.requestedAction);
    var tail := Joined(EncodeKeyPart(context.audience), EncodeKeyPart(context.requestedAction));
    var body := Joined(EncodeKeyPart(context.principal), tail);
    SplitAtFirstColon(EncodeKeyPart(context.principal), tail);
    SplitAtFirstColon(EncodeKeyPart(context.audience), EncodeKeyPart(context.requestedAction));
    DropPrefix(RATE_LIMIT_KEY_PREFIX, body);
  }

  lemma DropPrefix(prefix: string, body: string)
    ensures prefix <= prefix + body && (prefix + body)[|prefix|..] == body
  {
  }

  /** Two contexts share a counter exactly when they are the same context. */
  lemma Injective(a: Context, b: Context)
    ensures Of(a) == Of(b) <==> a == b
  {
    ParseOf(a);
    ParseOf(b);
  }
}
