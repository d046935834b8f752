/** The claims of a credential: what the issuer writes and what the verifier accepts
    (issuer/src/sign.ts, verifier-sdk/src/verify.ts). */
module Claims {
  import opened Wrappers

  datatype CredentialClaims = CredentialClaims(
    iss: string, sub: string, aud: string, iat: int, exp: int, jti: string,
    principal: string, scope: seq<string>, delegationChain: seq<string>)

  /** A claim of a decoded payload, before its shape is known. */
  datatype Json = Absent | JString(s: string) | JNumber(n: real) | JArray(items: seq<Json>) | JOther

  datatype JwtPayload = JwtPayload(
    iss: Json, sub: Json, aud: Json, iat: Json, exp: Json, jti: Json,
    principal: Json, scope: Json, delegationChain: Json)

  /** White space and line terminators of ECMAScript: what `trim` removes and `\s` matches. */
  predicate IsWhitespace(c: char) {
    var n := c as int;
    0x09 <= n <= 0x0D || n == 0x20 || n == 0xA0 || n == 0x1680 || 0x2000 <= n <= 0x200A
    || n == 0x2028 || n == 0x2029 || n == 0x202F || n == 0x205F || n == 0x3000 || n == 0xFEFF
  }

  /** Something is left after trimming; equally, the pattern `.*\S.*` matches. */
  predicate NonBlank(s: string) {
    exists c :: c in s && !IsWhitespace(c)
  }

  predicate IsNonBlankString(v: Json) {
    v.JString? && NonBlank(v.s)
  }

  predicate IsNonBlankStringArray(v: Json) {
    v.JArray? && forall i :: 0 <= i < |v.items| ==> IsNonBlankString(v.items[i])
  }

  predicate IsInteger(v: Json) {
    v.JNumber? && v.n.Floor as real == v.n
  }

  function Strings(items: seq<Json>): (r: seq<string>)
    requires forall i :: 0 <= i < |items| ==> items[i].JString?
    ensures |r| == |items| && forall i :: 0 <= i < |r| ==> r[i] == items[i].s
  {
    seq(|items|, i requires 0 <= i < |items| => items[i].s)
  }

  function ToVerifiedClaims(p: JwtPayload): Option<CredentialClaims> {
    if && IsNonBlankString(p.iss) && IsNonBlankString(p.sub) && IsNonBlankString(p.aud)
       && IsInteger(p.iat) && IsInteger(p.exp) && p.exp.n > p.iat.n
       && IsNonBlankString(p.jti) && IsNonBlankString(p.principal)
       && IsNonBlankStringArray(p.scope) && p.scope.items != []
       && IsNonBlankStringArray(p.delegationChain)
    then Some(CredentialClaims(p.iss.s, p.sub.s, p.aud.s, p.iat.n.Floor, p.exp.n.Floor, p.jti.s,
                               p.principal.s, Strings(p.scope.items), Strings(p.delegationChain.items)))
    else None
  }

  function JsonStrings(items: seq<string>): (r: seq<Json>)
    ensures |r| == |items| && forall i :: 0 <= i < |r| ==> r[i] == JString(items[i])
  {
    seq(|items|, i requires 0 <= i < |items| => JString(items[i]))
  }

  /** The payload that the signer serializes. */
  function ToPayload(c: CredentialClaims): JwtPayload {
    JwtPayload(JString(c.iss), JString(c.sub), JString(c.aud), JNumber(c.iat as real), JNumber(c.exp as real),
               JString(c.jti), JString(c.principal), JArray(JsonStrings(c.scope)),
               JArray(JsonStrings(c.delegationChain)))
  }

  predicate WellFormed(c: CredentialClaims) {
    && NonBlank(c.iss) && NonBlank(c.sub) && NonBlank(c.aud) && c.iat < c.exp
    && NonBlank(c.jti) && NonBlank(c.principal)
    && c.scope != [] && (forall s :: s in c.scope ==> NonBlank(s))
    && (forall s :: s in c.delegationChain ==> NonBlank(s))
  }

  /** The verifier reads back exactly the claims that were signed, and refuses exactly the ill-formed ones. */
  lemma ClaimsRoundTrip(c: CredentialClaims)
    ensures ToVerifiedClaims(ToPayload(c)) == if WellFormed(c) then Some(c) else None
  {
    ArrayRoundTrip(c.scope);
    ArrayRoundTrip(c.delegationChain);
  }

  lemma ArrayRoundTrip(items: seq<string>)
    ensures IsNonBlankStringArray(JArray(JsonStrings(items))) <==> forall s :: s in items ==> NonBlank(s)
    ensures IsNonBlankStringArray(JArray(JsonStrings(items))) ==> Strings(JsonStrings(items)) == items
  {
    var json := JsonStrings(items);
    if IsNonBlankStringArray(JArray(json)) {
      forall s | s in items ensures NonBlank(s) {
        var i :| 0 <= i < |items| && items[i] == s;
        assert IsNonBlankString(json[i]);
      }
    }
  }

  /** The verifier accepts exactly the payloads that the signer writes for well-formed claims: no other
      shape, no blank, no fraction. */
  lemma VerifiedClaimsIff(p: JwtPayload, c: CredentialClaims)
    ensures ToVerifiedClaims(p) == Some(c) <==> WellFormed(c) && p == ToPayload(c)
  {
    ClaimsRoundTrip(c);
    if ToVerifiedClaims(p) == Some(c) {
      StringsRoundTrip(p.scope.items);
      StringsRoundTrip(p.delegationChain.items);
      NonBlankItems(p.scope.items);
      NonBlankItems(p.delegationChain.items);
    }
  }

  lemma StringsRoundTrip(items: seq<Json>)
    requires forall i :: 0 <= i < |items| ==> items[i].JString?
    ensures JsonStrings(Strings(items)) == items
  {
  }

  lemma NonBlankItems(items: seq<Json>)
    requires IsNonBlankStringArray(JArray(items))
    ensures forall s :: s in Strings(items) ==> NonBlank(s)
  {
    forall s | s in Strings(items) ensures NonBlank(s) {
      var i :| 0 <= i < |items| && Strings(items)[i] == s;
      assert IsNonBlankString(items[i]);
    }
  }
}
