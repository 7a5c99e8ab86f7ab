/**
 When signing, recording and revoking succeed, and the database each of them leaves, in terms
 of the rows, the certificate and the request.
 */
module CaRevoking {
  import opened Wrappers
  import opened CText
  import opened CaSerial
  import opened CaRevocation
  import opened CaExpiry
  import opened CaDatabaseSpec

  /** The row has the certificate's serial, up to leading zeros. */
  predicate Carries(row: Row, cert: Cert) { Strip(row.serial) == Strip(SerialText(cert.serial)) }

  ghost predicate Absent(rows: seq<Row>, cert: Cert) { forall i :: 0 <= i < |rows| ==> !Carries(rows[i], cert) }

  /** Where subjects are unique, none of the indexed rows has the certificate's. */
  ghost predicate SubjectFree(db: Db, cert: Cert) {
    db.unique ==> forall i :: 0 <= i < |db.rows| && i in db.named ==> db.rows[i].name != cert.name
  }

  /** The row of a certificate that was never revoked. */
  function FreshRow(cert: Cert): Row { Row('V', cert.notAfter, "", SerialText(cert.serial), "unknown", cert.name) }

  lemma {:induction false} FindPresent(rows: seq<Row>, cert: Cert, i: nat)
    requires DistinctSerials(rows) && i < |rows| && Carries(rows[i], cert)
    ensures Find(rows, SerialText(cert.serial)) == i
  {
  }

  /** Signing succeeds if and only if the serial is absent and the subject is free. */
  lemma {:induction false} SignExact(db: Db, cert: Cert)
    ensures var (db', ok) := Insert(db, NewRow(cert));
            && (ok <==> Absent(db.rows, cert) && SubjectFree(db, cert))
            && db'.rows == (if ok then db.rows + [FreshRow(cert)] else db.rows)
            && db'.named == (if ok && db.unique then db.named + {|db.rows|} else db.named)
  {
    var i := Find(db.rows, SerialText(cert.serial));
    if i < |db.rows| { assert Carries(db.rows[i], cert); }
  }

  /** Recording a certificate is signing it, as far as the database is concerned. */
  lemma {:induction false} RecordExact(db: Db, cert: Cert, now: string, env: Env)
    ensures var (db', ok) := RevokeCert(db, cert, Record, now, env);
            && (ok <==> Absent(db.rows, cert) && SubjectFree(db, cert))
            && db'.rows == if ok then db.rows + [FreshRow(cert)] else db.rows
  {
    SignExact(db, cert);
    var i := Find(db.rows, SerialText(cert.serial));
    if i < |db.rows| { assert Carries(db.rows[i], cert); }
  }

  /**
   Revoking a certificate that is in the database succeeds if and only if its row has the same
   subject, is not revoked yet, whether valid, expired or anything else, and the request is
   valid. Then that row alone changes, in its type and its revocation field.
   */
  lemma {:induction false} RevokePresent(db: Db, cert: Cert, why: Revocation, now: string, env: Env, i: nat)
    requires DistinctSerials(db.rows) && i < |db.rows| && Carries(db.rows[i], cert)
    ensures var (db', ok) := RevokeCert(db, cert, Revoke(why), now, env);
            && (ok <==> db.rows[i].name == cert.name && db.rows[i].kind != 'R' && ValidRequest(env.words, why, env.lib))
            && |db'.rows| == |db.rows| && (!ok ==> db' == db)
            && (ok ==> Some(db'.rows[i].revDate) == RevocationText(env.words, why, now, env.lib)
                       && db'.rows[i] == db.rows[i].(kind := 'R', revDate := db'.rows[i].revDate))
            && forall j :: 0 <= j < |db.rows| && j != i ==> db'.rows[j] == db.rows[j]
  {
    FindPresent(db.rows, cert, i);
    TextExists(env.words, why, now, env.lib);
  }

  /**
   A certificate that is not in the database is recorded first: revoking it succeeds if and only
   if its subject is free and the request is valid. When only the request is invalid, the row
   stays, unrevoked.
   */
  lemma {:induction false} RevokeAbsent(db: Db, cert: Cert, why: Revocation, now: string, env: Env)
    requires Absent(db.rows, cert)
    ensures var (db', ok) := RevokeCert(db, cert, Revoke(why), now, env);
            && (ok <==> SubjectFree(db, cert) && ValidRequest(env.words, why, env.lib))
            && |db'.rows| == |db.rows| + (if SubjectFree(db, cert) then 1 else 0) && db.rows <= db'.rows
            && (SubjectFree(db, cert) && !ok ==> db'.rows[|db.rows|] == FreshRow(cert))
            && (ok ==> var text := RevocationText(env.words, why, now, env.lib).value;
                       db'.rows[|db.rows|] == FreshRow(cert).(kind := 'R', revDate := text))
  {
    SignExact(db, cert);
    TextExists(env.words, why, now, env.lib);
    var i := Find(db.rows, SerialText(cert.serial));
    assert i == |db.rows|;
    var grown := Insert(db, NewRow(cert)).0;
    if SubjectFree(db, cert) {
      assert grown.rows == db.rows + [FreshRow(cert)] && grown.rows[i] == FreshRow(cert);
    }
  }

  /** An expired certificate can still be revoked. */
  lemma {:induction false} ExpiredIsRevoked(t: string, now: string, env: Env)
    ensures var db := Db([Row('E', t, "", "00", "unknown", "/CN=a")], true, {});
            var (db', ok) := RevokeCert(db, Cert(0, t, "/CN=a"), Revoke(Unexplained), now, env);
            ok && db'.rows == [Row('R', t, now, "00", "unknown", "/CN=a")]
  {
    var db := Db([Row('E', t, "", "00", "unknown", "/CN=a")], true, {});
    RevokePresent(db, Cert(0, t, "/CN=a"), Unexplained, now, env, 0);
  }

  // ---------------------------------------------------------------- the count of an update

  predicate IsDue(row: Row, now: string) { row.kind == 'V' && Expired(row.expDate, now) }

  lemma {:induction false} ChangesIffDue(row: Row, now: string)
    ensures Aged(row, now) != row <==> IsDue(row, now)
  {
  }

  /** The rows an update has to mark. */
  ghost function Due(rows: seq<Row>, now: string): set<nat> { set i: nat | i < |rows| && IsDue(rows[i], now) }

  lemma {:induction false} DueSnoc(rows: seq<Row>, now: string)
    requires rows != []
    ensures var n: nat := |rows| - 1;
            && n !in Due(rows[..n], now)
            && Due(rows, now) == Due(rows[..n], now) + if IsDue(rows[n], now) then {n} else {}
  {
    var n: nat := |rows| - 1;
    assert forall i: nat :: i < n ==> rows[..n][i] == rows[i];
  }

  /** The number that an update reports is the number of those rows. */
  lemma {:induction false} FlipsCountDue(rows: seq<Row>, now: string)
    ensures Flips(rows, now) == |Due(rows, now)|
  {
    if rows == [] {
      assert Due(rows, now) == {};
    } else {
      var n := |rows| - 1;
      FlipsCountDue(rows[..n], now);
      ChangesIffDue(rows[n], now);
      DueSnoc(rows, now);
    }
  }
}
