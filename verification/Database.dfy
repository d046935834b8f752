/** The two tables of the issuer and their statements (issuer/src/db.ts, db/schema.sql).
    Each statement is one atomic step. Timestamps are milliseconds. */
module Database {
  import opened Wrappers
  import opened Claims

  /** A command may fail without effect, or take effect and still be reported as failed. */
  datatype CommandFate = Acknowledged | AppliedSilently | Dropped {
    predicate Applied() {
      !Dropped?
    }
  }

  datatype Issuance = Issuance(
    agentId: string, principal: string, scope: seq<string>, audience: string,
    issuedAt: int, expiresAt: int, delegationChain: seq<string>)

  datatype RevocationRow = RevocationRow(revokedAt: int, reason: Option<string>)

  /** A row as `revokeIssuance` returns it. */
  datatype Revocation = Revocation(jti: string, revokedAt: int, reason: Option<string>, expiresAt: int)

  /** A row as `listActiveRevocations` returns it. */
  datatype ActiveRevocation = ActiveRevocation(jti: string, expiresAt: int)

  datatype Tables = Tables(issuances: map<string, Issuance>, revocations: map<string, RevocationRow>) {
    /** The foreign key of `revocations`, and the whole-second expiries that `createIssuance` writes. */
    ghost predicate Valid() {
      && revocations.Keys <= issuances.Keys
      && forall jti :: jti in issuances ==> issuances[jti].expiresAt % 1000 == 0
    }
  }

  /** `to_timestamp` of whole seconds. */
  function RowOf(c: CredentialClaims): Issuance {
    Issuance(c.sub, c.principal, c.scope, c.aud, c.iat * 1000, c.exp * 1000, c.delegationChain)
  }

  /** The constraints of the `issuances` table: the primary key and the two checks. */
  predicate Insertable(t: Tables, c: CredentialClaims) {
    c.jti !in t.issuances && c.scope != [] && c.exp > c.iat
  }

  function Inserted(t: Tables, c: CredentialClaims): Tables {
    t.(issuances := t.issuances[c.jti := RowOf(c)])
  }

  /** Insert if absent; a conflict rewrites the row with itself. */
  function Revoked(t: Tables, jti: string, reason: Option<string>, now: int): Tables {
    if jti in t.issuances && jti !in t.revocations
    then t.(revocations := t.revocations[jti := RevocationRow(now, reason)])
    else t
  }

  function StoredRevocation(t: Tables, jti: string): Option<Revocation> {
    if jti in t.issuances && jti in t.revocations
    then Some(Revocation(jti, t.revocations[jti].revokedAt, t.revocations[jti].reason, t.issuances[jti].expiresAt))
    else None
  }

  predicate IsActive(t: Tables, jti: string, now: int) {
    jti in t.revocations && jti in t.issuances && t.issuances[jti].expiresAt > now
  }

  /** `rows` holds each active revocation once, with its issuance's expiry. */
  ghost predicate IsActiveListing(t: Tables, now: int, rows: seq<ActiveRevocation>) {
    && (forall i :: 0 <= i < |rows| ==>
          IsActive(t, rows[i].jti, now) && rows[i].expiresAt == t.issuances[rows[i].jti].expiresAt)
    && (forall jti :: IsActive(t, jti, now) ==> exists i :: 0 <= i < |rows| && rows[i].jti == jti)
    && (forall i, j :: 0 <= i < j < |rows| ==> rows[i].jti != rows[j].jti)
  }

  /** The checks of the `issuances` table hold of every row. */
  ghost predicate RowsChecked(t: Tables) {
    forall jti :: jti in t.issuances ==>
      t.issuances[jti].scope != [] && t.issuances[jti].expiresAt > t.issuances[jti].issuedAt
  }

  /** An insert succeeds exactly when it keeps the key unique and the checks true. */
  lemma InsertableIff(t: Tables, c: CredentialClaims)
    requires RowsChecked(t)
    ensures Insertable(t, c) <==> c.jti !in t.issuances && RowsChecked(Inserted(t, c))
    ensures c.jti !in t.issuances ==> forall jti :: jti != c.jti ==>
      (jti in Inserted(t, c).issuances <==> jti in t.issuances)
      && (jti in t.issuances ==> Inserted(t, c).issuances[jti] == t.issuances[jti])
  {
    assert c.jti in Inserted(t, c).issuances;
  }

  /** First write wins: the first revocation stores its own reason and time, each later one returns them,
      an unknown JTI is not revoked, and no other JTI is touched. */
  lemma FirstRevocationWins(t: Tables, jti: string, reason: Option<string>, now: int, other: string)
    ensures var u := Revoked(t, jti, reason, now);
      && u.issuances == t.issuances
      && (jti in t.issuances && jti !in t.revocations ==>
            StoredRevocation(u, jti) == Some(Revocation(jti, now, reason, t.issuances[jti].expiresAt)))
      && (jti in t.issuances && jti in t.revocations ==>
            u == t
            && StoredRevocation(u, jti)
               == Some(Revocation(jti, t.revocations[jti].revokedAt, t.revocations[jti].reason,
                                  t.issuances[jti].expiresAt)))
      && (jti !in t.issuances ==> u == t && StoredRevocation(u, jti) == None)
      && (other != jti ==> StoredRevocation(u, other) == StoredRevocation(t, other))
  {
  }

  class Pool {
    var tables: Tables

    constructor ()
      ensures tables == Tables(map[], map[])
    {
      tables := Tables(map[], map[]);
    }

    method CreateIssuance(claims: CredentialClaims, fate: CommandFate) returns (ok: bool)
      modifies this
      ensures ok <==> fate.Acknowledged? && Insertable(old(tables), claims)
      ensures tables == if fate.Applied() && Insertable(old(tables), claims) then Inserted(old(tables), claims)
                        else old(tables)
    {
      if fate.Dropped? || claims.jti in tables.issuances || claims.scope == [] || claims.exp <= claims.iat {
        return false;
      }
      tables := tables.(issuances := tables.issuances[claims.jti := RowOf(claims)]);
      ok := fate.Acknowledged?;
    }

    method RevokeIssuance(jti: string, reason: Option<string>, now: int) returns (r: Option<Revocation>)
      modifies this
      ensures tables == Revoked(old(tables), jti, reason, now)
      ensures r == StoredRevocation(tables, jti)
      ensures r.Some? <==> jti in old(tables).issuances
    {
      if jti !in tables.issuances {
        return None;
      }
      if jti !in tables.revocations {
        tables := tables.(revocations := tables.revocations[jti := RevocationRow(now, reason)]);
      }
      var row := tables.revocations[jti];
      r := Some(Revocation(jti, row.revokedAt, row.reason, tables.issuances[jti].expiresAt));
    }
  }
}
