/** The certificates table and the revoke handler: cli/server/certdbaccessor.go and cli/server/revoke.go. */
module Certificates {
  import opened Common
  import opened Registry
  import Enrollment

  /** A row; `id` is the enrollment id found in the certificate itself. */
  datatype CertRecord = CertRecord(
    id: string, serial: string, aki: string, status: string, reason: int, expiry: int, revokedAt: int, pem: string)

  const REVOKED := "revoked"

  // ----- The SQL statements -----

  /** PRIMARY KEY(serial_number, authority_key_identifier), in all three schemas. */
  predicate SameKey(a: CertRecord, b: CertRecord) { a.serial == b.serial && a.aki == b.aki }

  predicate KeyFree(certs: seq<CertRecord>, rec: CertRecord) {
    forall i :: 0 <= i < |certs| ==> !SameKey(certs[i], rec)
  }

  /** SELECT ... WHERE id = ?. */
  function ById(certs: seq<CertRecord>, id: string): (r: seq<CertRecord>) {
    if certs == [] then []
    else (if certs[0].id == id then [certs[0]] else []) + ById(certs[1..], id)
  }

  predicate Live(c: CertRecord, id: string) { c.id == id && c.status != REVOKED }

  /** SELECT * ... WHERE id = ? AND status != 'revoked'. */
  function LiveById(certs: seq<CertRecord>, id: string): (r: seq<CertRecord>) {
    if certs == [] then []
    else (if Live(certs[0], id) then [certs[0]] else []) + LiveById(certs[1..], id)
  }

  /** UPDATE ... SET status = 'revoked', revoked_at = now, reason = ? WHERE id = ? AND status != 'revoked'. */
  function Revoked(certs: seq<CertRecord>, id: string, reason: int, now: int): (r: seq<CertRecord>)
    ensures |r| == |certs|
  {
    seq(|certs|, i requires 0 <= i < |certs| =>
      if Live(certs[i], id) then certs[i].(status := REVOKED, reason := reason, revokedAt := now) else certs[i])
  }

  /** Row by row and column by column: the id's live rows become revoked, with reason and time; the rest stays. */
  ghost predicate RevokedInPlace(before: seq<CertRecord>, after: seq<CertRecord>, id: string, reason: int, now: int) {
    && |after| == |before|
    && forall i :: 0 <= i < |before| ==>
         if before[i].id == id && before[i].status != "revoked"
         then after[i] == CertRecord(before[i].id, before[i].serial, before[i].aki, "revoked", reason,
                                     before[i].expiry, now, before[i].pem)
         else after[i] == before[i]
  }

  class CertDBAccessor {
    var certificates: seq<CertRecord>

    /** `id` is what the certificate parses to, if it does. */
    method InsertCertificate(id: Option<string>, rec: CertRecord) returns (ok: bool)
      modifies this
      ensures ok <==> id.Some? && !exists c :: c in old(certificates) && c.serial == rec.serial && c.aki == rec.aki
      ensures certificates == if ok then old(certificates) + [rec.(id := id.value)] else old(certificates)
      ensures id.Some? ==> certificates == Apply(old(certificates), Insert(rec.(id := id.value)))
    {
      if id.None? { return false; }
      if !KeyFree(certificates, rec) { return false; }
      certificates := certificates + [rec.(id := id.value)];
      return true;
    }

    /** All rows of the id and nothing else, each as often as it occurs. */
    method GetCertificatesByID(id: string) returns (crs: seq<CertRecord>)
      ensures forall c :: multiset(crs)[c] == if c.id == id then multiset(certificates)[c] else 0
    {
      crs := ById(certificates, id);
      RowsOfIdAreReturned(certificates, id);
    }

    method RevokeCertificatesByID(id: string, reason: int, now: int) returns (crs: seq<CertRecord>)
      modifies this
      ensures crs == LiveById(old(certificates), id)
      ensures certificates == Revoked(old(certificates), id, reason, now)
      ensures RevokedInPlace(old(certificates), certificates, id, reason, now)
      ensures certificates == Apply(old(certificates), RevokeById(id, reason, now))
    {
      crs := LiveById(certificates, id);
      certificates := Revoked(certificates, id, reason, now);
    }
  }

  // ----- What a selection returns -----

  lemma {:induction false} RowsOfIdAreReturned(certs: seq<CertRecord>, id: string)
    ensures forall c :: multiset(ById(certs, id))[c] == if c.id == id then multiset(certs)[c] else 0
  {
    if certs != [] {
      RowsOfIdAreReturned(certs[1..], id);
      assert certs == [certs[0]] + certs[1..];
    }
  }

  // ----- What revocation by id does -----

  /** The rows returned are the id's unrevoked ones, each as often as it occurs, and nothing else. */
  lemma {:induction false} LiveRowsAreReturned(certs: seq<CertRecord>, id: string)
    ensures multiset(LiveById(certs, id)) <= multiset(certs)
    ensures forall c :: multiset(LiveById(certs, id))[c] == if Live(c, id) then multiset(certs)[c] else 0
  {
    if certs != [] {
      LiveRowsAreReturned(certs[1..], id);
      assert certs == [certs[0]] + certs[1..];
    }
  }

  lemma {:induction false} RevokedLeavesNoneLive(certs: seq<CertRecord>, id: string, reason: int, now: int)
    ensures LiveById(Revoked(certs, id, reason, now), id) == []
  {
    if certs != [] {
      RevokedLeavesNoneLive(certs[1..], id, reason, now);
      assert Revoked(certs, id, reason, now)[1..] == Revoked(certs[1..], id, reason, now);
    }
  }

  /** Other ids' certificates keep their rows, and every id keeps its keys. */
  lemma {:induction false} RevokedLeavesOthers(
      certs: seq<CertRecord>, id: string, reason: int, now: int, other: string)
    ensures other != id ==> ById(Revoked(certs, id, reason, now), other) == ById(certs, other)
    ensures |ById(Revoked(certs, id, reason, now), other)| == |ById(certs, other)|
    ensures forall i :: 0 <= i < |ById(certs, other)| ==>
              SameKey(ById(Revoked(certs, id, reason, now), other)[i], ById(certs, other)[i])
  {
    if certs != [] {
      RevokedLeavesOthers(certs[1..], id, reason, now, other);
      assert Revoked(certs, id, reason, now)[1..] == Revoked(certs[1..], id, reason, now);
    }
  }

  /** Already revoked rows keep reason and time; after one revocation a second one finds and changes nothing. */
  lemma RevocationIsIdempotent(certs: seq<CertRecord>, id: string, reason: int, now: int, reason': int, now': int)
    ensures var after := Revoked(certs, id, reason, now);
            && (forall i :: 0 <= i < |certs| && certs[i].status == REVOKED ==> after[i] == certs[i])
            && (forall i :: 0 <= i < |certs| && certs[i].id == id ==> after[i].status == REVOKED)
            && LiveById(after, id) == []
            && Revoked(after, id, reason', now') == after
  {
    RevokedLeavesNoneLive(certs, id, reason, now);
  }

  // ----- Runs of inserts and revocations by id -----

  datatype Step = Insert(rec: CertRecord) | RevokeById(id: string, reason: int, now: int)

  function Apply(certs: seq<CertRecord>, step: Step): (r: seq<CertRecord>) {
    match step
    case Insert(rec) => if KeyFree(certs, rec) then certs + [rec] else certs
    case RevokeById(id, reason, now) => Revoked(certs, id, reason, now)
  }

  function After(run: seq<Step>, n: nat): (certs: seq<CertRecord>)
    requires n <= |run|
  {
    if n == 0 then [] else Apply(After(run, n - 1), run[n - 1])
  }

  /** A revoked certificate is found under its key, and unchanged, in all later states. */
  lemma {:induction false} RevokedForever(run: seq<Step>, i: nat, n: nat, k: nat)
    requires i <= n <= |run| && k < |After(run, i)| && After(run, i)[k].status == REVOKED
    ensures k < |After(run, n)| && After(run, n)[k] == After(run, i)[k]
    decreases n
  {
    if i < n {
      RevokedForever(run, i, n - 1, k);
    }
  }

  /** In every state a key names at most one certificate. */
  lemma {:induction false} KeysAreUnique(run: seq<Step>, n: nat)
    requires n <= |run|
    ensures forall a, b :: 0 <= a < b < |After(run, n)| ==>
              !(After(run, n)[a].serial == After(run, n)[b].serial && After(run, n)[a].aki == After(run, n)[b].aki)
  {
    if n > 0 {
      KeysAreUnique(run, n - 1);
    }
  }

  // ----- The revoke handler -----

  datatype Revocation = Revocation(serial: string, aki: string, name: string, reason: int)

  datatype Reply = AuthError | BadRequest | NotFound | DbError | Done

  /** The foreign accessor's revocation by serial number: some new table, or a failure. */
  type BySerial = (seq<CertRecord>, Revocation) -> Option<seq<CertRecord>>

  /** Both a serial number and an authority key identifier: these go before a name. */
  predicate NamesCertificate(req: Revocation) { req.serial != "" && req.aki != "" }

  predicate NamesUser(req: Revocation) { !NamesCertificate(req) && req.name != "" }

  /** Which of the two updates of a revocation by name the database refuses. */
  datatype Faults = Faults(state: bool, certificates: bool)

  /**
   * `caller` is whom the token names, if it verifies; `request` the parsed body, if it parses.
   * When the second update fails, the user's state has changed and its certificates have not.
   */
  method Handle(
      users: Accessor, certs: CertDBAccessor, bySerial: BySerial, caller: Option<string>,
      request: Option<Revocation>, faults: Faults, now: int) returns (reply: Reply)
    modifies users`users, certs
    ensures users.groups == old(users.groups)
    ensures reply.AuthError? <==>
              caller.None? || !Enrollment.HasAttribute(old(users.users), caller.value, Enrollment.REVOKER)
    ensures reply.BadRequest? <==>
              && !reply.AuthError?
              && (request.None? || (!NamesCertificate(request.value) && !NamesUser(request.value)))
    ensures reply.DbError? <==>
              && !reply.AuthError? && request.Some? && NamesUser(request.value)
              && SelectUser(old(users.users), request.value.name).Some? && (faults.state || faults.certificates)
    ensures reply.NotFound? <==>
              && !reply.AuthError? && request.Some?
              && ((NamesCertificate(request.value) && bySerial(old(certs.certificates), request.value).None?)
                  || (NamesUser(request.value) && SelectUser(old(users.users), request.value.name).None?))
    ensures reply.Done? && NamesCertificate(request.value) ==>
              && users.users == old(users.users)
              && Some(certs.certificates) == bySerial(old(certs.certificates), request.value)
    ensures reply.Done? && NamesUser(request.value) ==>
              && users.users == SetState(old(users.users), request.value.name, -1)
              && RevokedInPlace(
                   old(certs.certificates), certs.certificates, request.value.name, request.value.reason, now)
    ensures reply.DbError? ==>
              && certs.certificates == old(certs.certificates)
              && users.users ==
                 if faults.state then old(users.users) else SetState(old(users.users), request.value.name, -1)
    ensures reply.AuthError? || reply.BadRequest? || reply.NotFound? ==>
              users.users == old(users.users) && certs.certificates == old(certs.certificates)
    ensures caller.Some? && request.Some? && NamesUser(request.value) && !faults.state ==>
              var step := Enrollment.RevokeByName(caller.value, request.value.name);
              forall env ::
                (Enrollment.Tables(users.users, users.groups), reply.Done? || reply.DbError?) ==
                Enrollment.Apply(env, Enrollment.Tables(old(users.users), users.groups), step)
  {
    if caller.None? { return AuthError; }
    var revoker := users.GetUser(caller.value);
    if revoker.None? || AttributeOf(revoker.value, Enrollment.REVOKER) == "" { return AuthError; }
    if request.None? { return BadRequest; }
    var req := request.value;
    if req.serial != "" && req.aki != "" {
      var revoked := bySerial(certs.certificates, req);
      if revoked.None? { return NotFound; }
      certs.certificates := revoked.value;
    } else if req.name != "" {
      var user := users.GetUser(req.name);
      if user.None? { return NotFound; }
      if faults.state { return DbError; }
      var _ := users.UpdateField(req.name, State, -1);
      if faults.certificates { return DbError; }
      var _ := certs.RevokeCertificatesByID(req.name, req.reason, now);
    } else {
      return BadRequest;
    }
    return Done;
  }
}
