/**
 The CA's text database: what signing, revoking and marking as expired do to its rows, and
 what every run of them keeps.
 */
module CaDatabaseSpec {
  import opened Wrappers
  import opened CText
  import opened CaSerial
  import opened CaRevocation
  import opened CaExpiry

  /** One line of the index file. Only the first character of the type field matters. */
  datatype Row = Row(kind: char, expDate: string, revDate: string, serial: string, file: string, name: string)

  /** The rows, and the positions that are in the index over the subject names. */
  datatype Db = Db(rows: seq<Row>, unique: bool, named: set<nat>)

  datatype Env = Env(words: Table, lib: Asn1)

  datatype Cert = Cert(serial: int, notAfter: string, name: string)

  /** `type == -1` only records the certificate. */
  datatype Action = Record | Revoke(why: Revocation)

  // ---------------------------------------------------------------- operations

  /** `TXT_DB_get_by_index` on the serial index: the row whose serial compares equal, or none. */
  function Find(rows: seq<Row>, serial: string): (i: nat)
    ensures i <= |rows|
    ensures i < |rows| ==> Strip(rows[i].serial) == Strip(serial)
    ensures forall j :: 0 <= j < i ==> Strip(rows[j].serial) != Strip(serial)
  {
    if rows == [] || Strip(rows[0].serial) == Strip(serial) then 0 else 1 + Find(rows[1..], serial)
  }

  predicate NameTaken(db: Db, name: string) {
    exists j :: 0 <= j < |db.rows| && j in db.named && db.rows[j].name == name
  }

  /** `TXT_DB_insert` */
  function Insert(db: Db, row: Row): (r: (Db, bool)) {
    if Find(db.rows, row.serial) < |db.rows| then (db, false)
    else if db.unique && row.kind == 'V' && NameTaken(db, row.name) then (db, false)
    else (Db(db.rows + [row], db.unique,
             if db.unique && row.kind == 'V' then db.named + {|db.rows|} else db.named), true)
  }

  function NewRow(cert: Cert): Row { Row('V', cert.notAfter, "", SerialText(cert.serial), "unknown", cert.name) }

  /** The last branches of `do_revoke`, on a row that is there. */
  function RevokeRow(db: Db, i: nat, cert: Cert, action: Action, now: string, env: Env): (r: (Db, bool))
    requires i < |db.rows|
  {
    var row := db.rows[i];
    if row.name != cert.name || action.Record? || row.kind == 'R' then (db, false)
    else
      match RevocationText(env.words, action.why, now, env.lib)
      case None => (db, false)
      case Some(text) => (db.(rows := db.rows[i := row.(kind := 'R', revDate := text)]), true)
  }

  /** `do_revoke`: a certificate that is not in the database is put there first. */
  function RevokeCert(db: Db, cert: Cert, action: Action, now: string, env: Env): (r: (Db, bool)) {
    var i := Find(db.rows, SerialText(cert.serial));
    if i < |db.rows| then RevokeRow(db, i, cert, action, now, env)
    else
      var (grown, ok) := Insert(db, NewRow(cert));
      if !ok then (db, false)
      else if action.Record? then (grown, true)
      else RevokeRow(grown, i, cert, action, now, env)
  }

  function Aged(row: Row, now: string): Row {
    if row.kind == 'V' && Expired(row.expDate, now) then row.(kind := 'E') else row
  }

  /** `do_updatedb` */
  function Update(db: Db, now: string): Db {
    db.(rows := seq(|db.rows|, i requires 0 <= i < |db.rows| => Aged(db.rows[i], now)))
  }

  datatype Op = Sign(cert: Cert) | DoRevoke(cert: Cert, action: Action, now: string) | DoUpdate(now: string)

  function Apply(db: Db, op: Op, env: Env): Db {
    match op
    case Sign(cert) => Insert(db, NewRow(cert)).0
    case DoRevoke(cert, action, now) => RevokeCert(db, cert, action, now, env).0
    case DoUpdate(now) => Update(db, now)
  }

  function RunOps(db: Db, ops: seq<Op>, env: Env): Db
    decreases |ops|
  {
    if ops == [] then db else RunOps(Apply(db, ops[0], env), ops[1..], env)
  }

  // ---------------------------------------------------------------- the load-time checks

  /** The checks that do not depend on what was recorded when. */
  predicate RowSound(row: Row) { SerialOk(row.serial) && (row.kind != 'R' ==> row.revDate == "") }

  /** The checks on the dates of a row. */
  predicate RowReadable(row: Row, env: Env) { env.lib.anyTime(row.expDate) && RevocationReadable(row, env) }

  predicate RevocationReadable(row: Row, env: Env) {
    row.kind == 'R' ==> Unpack(env.words, row.revDate, env.lib).Some?
  }

  ghost predicate RevocationsReadable(rows: seq<Row>, env: Env) {
    forall i :: 0 <= i < |rows| ==> RevocationReadable(rows[i], env)
  }

  predicate RowOk(row: Row, env: Env) { RowSound(row) && RowReadable(row, env) }

  ghost predicate RowsOk(rows: seq<Row>, env: Env) { forall i :: 0 <= i < |rows| ==> RowOk(rows[i], env) }

  ghost predicate RowsSound(rows: seq<Row>) { forall i :: 0 <= i < |rows| ==> RowSound(rows[i]) }

  ghost predicate RowsReadable(rows: seq<Row>, env: Env) { forall i :: 0 <= i < |rows| ==> RowReadable(rows[i], env) }

  ghost predicate DistinctSerials(rows: seq<Row>) {
    forall i, j :: 0 <= i < j < |rows| ==> Strip(rows[i].serial) != Strip(rows[j].serial)
  }

  ghost predicate DistinctNames(rows: seq<Row>) {
    forall i, j :: 0 <= i < j < |rows| && rows[i].kind == 'V' && rows[j].kind == 'V' ==> rows[i].name != rows[j].name
  }

  /** What `ca_main` and `index_index` insist on before they touch a database. */
  ghost predicate Loadable(rows: seq<Row>, unique: bool, env: Env) {
    RowsOk(rows, env) && DistinctSerials(rows) && (unique ==> DistinctNames(rows))
  }

  ghost function ValidRows(rows: seq<Row>): set<nat> { set i: nat | i < |rows| && rows[i].kind == 'V' }

  /** The name index holds every valid row; rows that were revoked or expired since stay in it. */
  ghost predicate NamesOk(db: Db) {
    && (forall i :: 0 <= i < |db.rows| && db.rows[i].kind == 'V' ==> i in db.named)
    && (forall i, j :: 0 <= i < j < |db.rows| && i in db.named && j in db.named ==> db.rows[i].name != db.rows[j].name)
    && (forall i :: i in db.named ==> i < |db.rows|)
  }

  /** What every run keeps: sound rows, distinct serials and a name index in order. */
  ghost predicate DbSound(db: Db) {
    RowsSound(db.rows) && DistinctSerials(db.rows) && (db.unique ==> NamesOk(db))
  }

  /** What is loaded is in order. */
  lemma {:induction false} LoadedIsSound(rows: seq<Row>, unique: bool, env: Env)
    requires Loadable(rows, unique, env)
    ensures DbSound(Db(rows, unique, ValidRows(rows))) && RowsReadable(rows, env)
  {
    assert forall i :: 0 <= i < |rows| ==> RowOk(rows[i], env);
  }

  /** What is saved can be loaded again if and only if its dates are readable. */
  lemma {:induction false} SavedIsLoadable(db: Db, env: Env)
    requires DbSound(db)
    ensures Loadable(db.rows, db.unique, env) <==> RowsReadable(db.rows, env)
  {
    if Loadable(db.rows, db.unique, env) {
      forall i | 0 <= i < |db.rows| ensures RowReadable(db.rows[i], env) { assert RowOk(db.rows[i], env); }
    }
  }

  // ---------------------------------------------------------------- what every operation keeps

  lemma {:induction false} InsertKeeps(db: Db, row: Row)
    requires DbSound(db) && RowSound(row)
    ensures DbSound(Insert(db, row).0)
  {
    var (db', ok) := Insert(db, row);
    if ok {
      assert RowsSound(db'.rows);
      SnocSerials(db.rows, row);
      if db.unique { InsertKeepsNames(db, row); }
    }
  }

  lemma {:induction false} SnocSerials(rows: seq<Row>, row: Row)
    requires DistinctSerials(rows) && Find(rows, row.serial) == |rows|
    ensures DistinctSerials(rows + [row])
  {
  }

  lemma {:induction false} InsertKeepsNames(db: Db, row: Row)
    requires db.unique && NamesOk(db) && Insert(db, row).1
    ensures NamesOk(Insert(db, row).0)
  {
    var db' := Insert(db, row).0;
    var n := |db.rows|;
    forall i, j | 0 <= i < j <= n && i in db'.named && j in db'.named ensures db'.rows[i].name != db'.rows[j].name {
      if j == n { assert db.rows[i].name != row.name; }
    }
  }

  lemma {:induction false} NewRowSound(cert: Cert)
    ensures RowSound(NewRow(cert))
  {
    SerialTextValue(cert.serial);
  }

  lemma {:induction false} RevokeRowKeeps(db: Db, i: nat, cert: Cert, action: Action, now: string, env: Env)
    requires DbSound(db) && i < |db.rows|
    ensures DbSound(RevokeRow(db, i, cert, action, now, env).0)
  {
    var (db', ok) := RevokeRow(db, i, cert, action, now, env);
    if ok {
      assert RowSound(db'.rows[i]) by { assert RowSound(db.rows[i]); }
      ReplaceKeeps(db, i, db'.rows[i]);
    }
  }

  /** Replacing a row by a sound one of the same serial and name, not made valid, keeps the database in order. */
  lemma {:induction false} ReplaceKeeps(db: Db, i: nat, row: Row)
    requires DbSound(db) && i < |db.rows| && RowSound(row)
    requires row.serial == db.rows[i].serial && row.name == db.rows[i].name
    requires row.kind == 'V' ==> db.rows[i].kind == 'V'
    ensures DbSound(db.(rows := db.rows[i := row]))
  {
    var rows := db.rows[i := row];
    assert forall j :: 0 <= j < |rows| ==> rows[j].serial == db.rows[j].serial && rows[j].name == db.rows[j].name;
  }

  lemma {:induction false} RevokeKeeps(db: Db, cert: Cert, action: Action, now: string, env: Env)
    requires DbSound(db)
    ensures DbSound(RevokeCert(db, cert, action, now, env).0)
  {
    var i := Find(db.rows, SerialText(cert.serial));
    if i < |db.rows| {
      RevokeRowKeeps(db, i, cert, action, now, env);
    } else {
      NewRowSound(cert);
      InsertKeeps(db, NewRow(cert));
      var (grown, ok) := Insert(db, NewRow(cert));
      if ok && action.Revoke? {
        RevokeRowKeeps(grown, i, cert, action, now, env);
      }
    }
  }

  lemma {:induction false} UpdateKeeps(db: Db, now: string)
    requires DbSound(db)
    ensures DbSound(Update(db, now))
  {
    var rows := Update(db, now).rows;
    assert forall i :: 0 <= i < |rows| ==> rows[i].serial == db.rows[i].serial && rows[i].name == db.rows[i].name;
    forall i | 0 <= i < |rows| ensures RowSound(rows[i]) { assert RowSound(db.rows[i]); }
  }

  lemma {:induction false} ApplyKeeps(db: Db, op: Op, env: Env)
    requires DbSound(db)
    ensures DbSound(Apply(db, op, env)) && Apply(db, op, env).unique == db.unique
  {
    match op {
      case Sign(cert) => NewRowSound(cert); InsertKeeps(db, NewRow(cert));
      case DoRevoke(cert, action, now) => RevokeKeeps(db, cert, action, now, env);
      case DoUpdate(now) => UpdateKeeps(db, now);
    }
  }

  /** Whatever is signed, revoked or updated: serials, revocation fields and both indexes stay in order. */
  lemma {:induction false} RunKeeps(db: Db, ops: seq<Op>, env: Env)
    requires DbSound(db)
    ensures DbSound(RunOps(db, ops, env)) && RunOps(db, ops, env).unique == db.unique
    decreases |ops|
  {
    if ops != [] {
      ApplyKeeps(db, ops[0], env);
      RunKeeps(Apply(db, ops[0], env), ops[1..], env);
    }
  }

  // ---------------------------------------------------------------- when the result can be loaded

  /** The date of the certificate that an operation records, if it records one. */
  function RecordedDate(db: Db, op: Op, env: Env): Option<string> {
    if |Apply(db, op, env).rows| == |db.rows| || op.DoUpdate? then None else Some(op.cert.notAfter)
  }

  /** The clock that an operation writes into a revocation field, if it revokes. */
  function RecordedClock(db: Db, op: Op, env: Env): Option<string> {
    if op.DoRevoke? && op.action.Revoke? && RevokeCert(db, op.cert, op.action, op.now, env).1 then Some(op.now)
    else None
  }

  ghost predicate RecordsReadable(db: Db, op: Op, env: Env) {
    && (RecordedDate(db, op, env).Some? ==> env.lib.anyTime(RecordedDate(db, op, env).value))
    && (RecordedClock(db, op, env).Some? ==> env.lib.utcTime(RecordedClock(db, op, env).value))
  }

  /** Every date and clock that a run records is readable. */
  ghost predicate RunRecordsReadable(db: Db, ops: seq<Op>, env: Env)
    decreases |ops|
  {
    ops != [] ==> RecordsReadable(db, ops[0], env) && RunRecordsReadable(Apply(db, ops[0], env), ops[1..], env)
  }

  /** The clock has no comma in it. */
  ghost predicate ValidOp(op: Op) { op.DoRevoke? ==> CommaFree(op.now) }

  lemma {:induction false} ReadableSnoc(rows: seq<Row>, row: Row, env: Env)
    ensures RowsReadable(rows + [row], env) <==> RowsReadable(rows, env) && RowReadable(row, env)
  {
    var all := rows + [row];
    if RowsReadable(all, env) {
      assert all[|rows|] == row;
      forall i | 0 <= i < |rows| ensures RowReadable(rows[i], env) { assert all[i] == rows[i]; }
    }
  }

  /** An entry that is no longer unrevoked has a readable field if and only if the clock was a UTCTime. */
  lemma {:induction false} RevokeRowReadable(db: Db, i: nat, cert: Cert, why: Revocation, now: string, env: Env)
    requires i < |db.rows| && Unambiguous(env.words) && CommaFree(now)
    ensures var (db', ok) := RevokeRow(db, i, cert, Revoke(why), now, env);
            RowsReadable(db'.rows, env) <==> RowsReadable(db.rows, env) && (ok ==> env.lib.utcTime(now))
  {
    var (db', ok) := RevokeRow(db, i, cert, Revoke(why), now, env);
    if ok {
      UnpacksIffUtc(env.words, why, now, env.lib);
      assert RowReadable(db'.rows[i], env) <==> RowReadable(db.rows[i], env) && env.lib.utcTime(now);
      ReadableReplace(db.rows, i, db'.rows[i], env);
      ReadableReplace(db'.rows, i, db.rows[i], env);
      assert db'.rows == db.rows[i := db'.rows[i]] && db.rows == db'.rows[i := db.rows[i]];
    }
  }

  lemma {:induction false} ReadableReplace(rows: seq<Row>, i: nat, row: Row, env: Env)
    requires i < |rows|
    ensures RowsReadable(rows, env) && RowReadable(row, env) ==> RowsReadable(rows[i := row], env)
    ensures RowsReadable(rows, env) ==> RowReadable(rows[i], env)
  {
  }

  lemma {:induction false} RevokeReadable(db: Db, cert: Cert, action: Action, now: string, env: Env)
    requires Unambiguous(env.words) && CommaFree(now)
    ensures var op := DoRevoke(cert, action, now);
            RowsReadable(Apply(db, op, env).rows, env) <==> RowsReadable(db.rows, env) && RecordsReadable(db, op, env)
  {
    var i := Find(db.rows, SerialText(cert.serial));
    if i < |db.rows| {
      if action.Revoke? { RevokeRowReadable(db, i, cert, action.why, now, env); }
    } else {
      var (grown, ok) := Insert(db, NewRow(cert));
      if ok {
        ReadableSnoc(db.rows, NewRow(cert), env);
        if action.Revoke? { RevokeRowReadable(grown, i, cert, action.why, now, env); }
      }
    }
  }

  lemma {:induction false} UpdateReadable(db: Db, now: string, env: Env)
    ensures RowsReadable(Update(db, now).rows, env) <==> RowsReadable(db.rows, env)
  {
    var rows := Update(db, now).rows;
    forall i | 0 <= i < |rows| ensures RowReadable(rows[i], env) <==> RowReadable(db.rows[i], env) {
      assert rows[i] == Aged(db.rows[i], now);
    }
  }

  lemma {:induction false} ApplyReadable(db: Db, op: Op, env: Env)
    requires Unambiguous(env.words) && ValidOp(op)
    ensures RowsReadable(Apply(db, op, env).rows, env) <==> RowsReadable(db.rows, env) && RecordsReadable(db, op, env)
  {
    match op {
      case Sign(cert) => ReadableSnoc(db.rows, NewRow(cert), env);
      case DoRevoke(cert, action, now) => RevokeReadable(db, cert, action, now, env);
      case DoUpdate(now) => UpdateReadable(db, now, env);
    }
  }

  /**
   The database after a run can be loaded again if and only if every certificate that was
   recorded has a readable date, and every revocation was made at a clock that is a UTCTime.
   */
  lemma {:induction false} LoadableIff(db: Db, ops: seq<Op>, env: Env)
    requires DbSound(db) && RowsReadable(db.rows, env) && Unambiguous(env.words)
    requires forall k :: 0 <= k < |ops| ==> ValidOp(ops[k])
    ensures Loadable(RunOps(db, ops, env).rows, db.unique, env) <==> RunRecordsReadable(db, ops, env)
  {
    RunKeeps(db, ops, env);
    SavedIsLoadable(RunOps(db, ops, env), env);
    RunReadable(db, ops, env);
  }

  /** Recording a single certificate with a date that cannot be read makes a database that cannot be loaded. */
  lemma {:induction false} UnreadableDateRecorded(cert: Cert, now: string, unique: bool, env: Env)
    requires Unambiguous(env.words) && CommaFree(now) && !env.lib.anyTime(cert.notAfter)
    ensures var ops := [DoRevoke(cert, Record, now)];
            Loadable([], unique, env) && !Loadable(RunOps(Db([], unique, {}), ops, env).rows, unique, env)
  {
    LoadableIff(Db([], unique, {}), [DoRevoke(cert, Record, now)], env);
  }

  lemma {:induction false} RunReadable(db: Db, ops: seq<Op>, env: Env)
    requires Unambiguous(env.words) && forall k :: 0 <= k < |ops| ==> ValidOp(ops[k])
    ensures RowsReadable(RunOps(db, ops, env).rows, env) <==>
            RowsReadable(db.rows, env) && RunRecordsReadable(db, ops, env)
    decreases |ops|
  {
    if ops != [] {
      ApplyReadable(db, ops[0], env);
      RunReadable(Apply(db, ops[0], env), ops[1..], env);
    }
  }

  /** A later database: no row is lost or renumbered, and a revoked row is never touched again. */
  ghost predicate Later(before: seq<Row>, after: seq<Row>) {
    && |before| <= |after|
    && forall i :: 0 <= i < |before| ==>
         && after[i].serial == before[i].serial && after[i].name == before[i].name
         && after[i].expDate == before[i].expDate
         && (before[i].kind == 'R' ==> after[i] == before[i])
         && (after[i].kind == 'V' ==> before[i].kind == 'V')
  }

  lemma {:induction false} ApplyLater(db: Db, op: Op, env: Env)
    ensures Later(db.rows, Apply(db, op, env).rows)
  {
    match op {
      case Sign(_) =>
      case DoRevoke(cert, action, now) => RevokeLater(db, cert, action, now, env);
      case DoUpdate(_) =>
    }
  }

  lemma {:induction false} RevokeLater(db: Db, cert: Cert, action: Action, now: string, env: Env)
    ensures Later(db.rows, RevokeCert(db, cert, action, now, env).0.rows)
  {
    var i := Find(db.rows, SerialText(cert.serial));
    if i == |db.rows| {
      var (grown, ok) := Insert(db, NewRow(cert));
      assert ok ==> forall j :: 0 <= j < |db.rows| ==> grown.rows[j] == db.rows[j];
    }
  }

  lemma {:induction false} RunLater(db: Db, ops: seq<Op>, env: Env)
    ensures Later(db.rows, RunOps(db, ops, env).rows)
    decreases |ops|
  {
    if ops != [] {
      ApplyLater(db, ops[0], env);
      RunLater(Apply(db, ops[0], env), ops[1..], env);
      LaterTransitive(db.rows, Apply(db, ops[0], env).rows, RunOps(db, ops, env).rows);
    }
  }

  lemma {:induction false} LaterTransitive(a: seq<Row>, b: seq<Row>, c: seq<Row>)
    requires Later(a, b) && Later(b, c)
    ensures Later(a, c)
  {
  }

  // ---------------------------------------------------------------- revoking

  /**
   A successful revocation: exactly one row carries the serial, it is revoked with the text of
   the request, and every row that was there before and is not that one is unchanged.
   */
  lemma {:induction false} RevokeEffect(db: Db, cert: Cert, why: Revocation, now: string, env: Env)
    requires DistinctSerials(db.rows) && RevokeCert(db, cert, Revoke(why), now, env).1
    ensures var rows := RevokeCert(db, cert, Revoke(why), now, env).0.rows;
            var i := Find(db.rows, SerialText(cert.serial));
            && i < |rows| && |rows| == (if i == |db.rows| then |db.rows| + 1 else |db.rows|)
            && rows[i].kind == 'R' && Some(rows[i].revDate) == RevocationText(env.words, why, now, env.lib)
            && rows[i].name == cert.name && (i < |db.rows| ==> db.rows[i].kind != 'R')
            && (forall j :: 0 <= j < |rows| && j != i ==> Strip(rows[j].serial) != Strip(SerialText(cert.serial)))
            && Strip(rows[i].serial) == Strip(SerialText(cert.serial))
            && (forall j :: 0 <= j < |rows| && j != i ==> rows[j] == db.rows[j])
  {
    var i := Find(db.rows, SerialText(cert.serial));
    if i < |db.rows| {
      forall j | 0 <= j < |db.rows| && j != i ensures Strip(db.rows[j].serial) != Strip(db.rows[i].serial) {
        if j < i { assert Strip(db.rows[j].serial) != Strip(db.rows[i].serial); }
      }
    } else {
      var grown := Insert(db, NewRow(cert)).0;
      assert forall j :: 0 <= j < |db.rows| ==> grown.rows[j] == db.rows[j];
      assert grown.rows[i] == NewRow(cert);
    }
  }

  // ---------------------------------------------------------------- expiry

  /** The number of rows that a pass changes. */
  function Flips(rows: seq<Row>, now: string): nat {
    if rows == [] then 0
    else
      var n := |rows| - 1;
      Flips(rows[..n], now) + if Aged(rows[n], now) != rows[n] then 1 else 0
  }

  /** Every date has a form the load check accepts. */
  ghost predicate AnyDates(rows: seq<Row>) { forall i :: 0 <= i < |rows| ==> AnyDate(rows[i].expDate) }

  /** Every date is in coordinated universal time, without a fraction. */
  ghost predicate HaveInstants(rows: seq<Row>) { forall i :: 0 <= i < |rows| ==> HasInstant(rows[i].expDate) }

  /** What `do_updatedb` is for: exactly the valid rows whose instant has come are marked. */
  ghost predicate RightlyAged(rows: seq<Row>, was: seq<Row>, now: string)
    requires HaveInstants(was) && UtcTime(now)
  {
    && |rows| == |was|
    && forall i :: 0 <= i < |was| ==>
         rows[i] == if was[i].kind == 'V' && Instant(was[i].expDate) <= Instant(now)
                    then was[i].(kind := 'E') else was[i]
  }

  ghost predicate NoneMisjudged(rows: seq<Row>, now: string)
    requires HaveInstants(rows) && UtcTime(now)
  {
    forall i :: 0 <= i < |rows| && rows[i].kind == 'V' ==> !Misjudged(rows[i].expDate, now)
  }

  /**
   The update marks exactly the valid rows whose date, as it is read, is not after the clock;
   and a second update changes nothing.
   */
  lemma {:induction false} UpdateExact(db: Db, now: string)
    requires UtcTime(now) && now[10] < '6' && AnyDates(db.rows)
    ensures var rows := Update(db, now).rows;
            && |rows| == |db.rows|
            && (forall i :: 0 <= i < |rows| ==>
                  rows[i] == if db.rows[i].kind == 'V' && Instant(Read(db.rows[i].expDate)) <= Instant(now)
                             then db.rows[i].(kind := 'E') else db.rows[i])
    ensures Update(Update(db, now), now) == Update(db, now) && Flips(Update(db, now).rows, now) == 0
  {
    forall i | 0 <= i < |db.rows|
      ensures Expired(db.rows[i].expDate, now) <==> Instant(Read(db.rows[i].expDate)) <= Instant(now)
    {
      ExpiredIffReadPast(db.rows[i].expDate, now);
    }
    assert Update(Update(db, now), now).rows == Update(db, now).rows;
    NoFlips(Update(db, now).rows, now);
  }

  /** It marks the right ones if and only if it misjudges no valid row, so always on UTCTime dates. */
  lemma {:induction false} UpdateRightIff(db: Db, now: string)
    requires UtcTime(now) && now[10] < '6' && HaveInstants(db.rows)
    ensures RightlyAged(Update(db, now).rows, db.rows, now) <==> NoneMisjudged(db.rows, now)
    ensures (forall i :: 0 <= i < |db.rows| ==> UtcTime(db.rows[i].expDate)) ==> NoneMisjudged(db.rows, now)
  {
    var rows := Update(db, now).rows;
    forall i | 0 <= i < |db.rows|
      ensures (Expired(db.rows[i].expDate, now) <==> Instant(db.rows[i].expDate) <= Instant(now))
              <==> !Misjudged(db.rows[i].expDate, now)
    {
      WrongIffMisjudged(db.rows[i].expDate, now);
    }
    forall i | 0 <= i < |db.rows| && db.rows[i].kind == 'V' && Misjudged(db.rows[i].expDate, now)
      ensures !RightlyAged(rows, db.rows, now)
    {
      assert rows[i] == Aged(db.rows[i], now);
      assert rows[i].kind != if Instant(db.rows[i].expDate) <= Instant(now) then 'E' else 'V';
    }
  }

  lemma {:induction false} NoFlips(rows: seq<Row>, now: string)
    requires forall i :: 0 <= i < |rows| ==> Aged(rows[i], now) == rows[i]
    ensures Flips(rows, now) == 0
  {
    if rows != [] { NoFlips(rows[..|rows| - 1], now); }
  }

  // ---------------------------------------------------------------- the revocation list

  /** What each row contributes to the CRL. */
  ghost function Numbers(rows: seq<Row>): (r: seq<Option<int>>)
    requires forall i :: 0 <= i < |rows| ==> SerialOk(rows[i].serial)
    ensures |r| == |rows|
  {
    seq(|rows|, i requires 0 <= i < |rows| => if rows[i].kind == 'R' then Some(SerialNumber(rows[i].serial)) else None)
  }

  function Somes(s: seq<Option<int>>): seq<int> {
    if s == [] then []
    else
      var last := s[|s| - 1];
      Somes(s[..|s| - 1]) + if last.Some? then [last.value] else []
  }

  /** The serials listed by the CRL loop. */
  ghost function Listed(rows: seq<Row>): seq<int>
    requires forall i :: 0 <= i < |rows| ==> SerialOk(rows[i].serial)
  {
    Somes(Numbers(rows))
  }

  ghost predicate NoRepeats(s: seq<int>) { forall i, j :: 0 <= i < j < |s| ==> s[i] != s[j] }

  lemma {:induction false} SomesMembers(s: seq<Option<int>>, n: int)
    ensures n in Somes(s) <==> Some(n) in s
  {
    if s != [] {
      SomesMembers(s[..|s| - 1], n);
      assert s == s[..|s| - 1] + [s[|s| - 1]];
    }
  }

  lemma {:induction false} SomesOnce(s: seq<Option<int>>)
    ensures NoRepeats(Somes(s)) <==> forall i, j :: 0 <= i < j < |s| && s[i].Some? ==> s[i] != s[j]
  {
    if s != [] {
      var n := |s| - 1;
      var init := s[..n];
      SomesOnce(init);
      assert forall i :: 0 <= i < n ==> init[i] == s[i];
      if s[n].Some? {
        SomesMembers(init, s[n].value);
        SnocNoRepeats(Somes(init), s[n].value);
        assert s[n] in init <==> exists i :: 0 <= i < n && s[i] == s[n];
      } else {
        assert Somes(s) == Somes(init);
      }
    }
  }

  lemma {:induction false} SnocNoRepeats(s: seq<int>, x: int)
    ensures NoRepeats(s + [x]) <==> NoRepeats(s) && x !in s
  {
    var t := s + [x];
    if NoRepeats(t) {
      forall i, j | 0 <= i < j < |s| ensures s[i] != s[j] { assert t[i] == s[i] && t[j] == s[j]; }
      forall i | 0 <= i < |s| ensures s[i] != x { assert t[i] == s[i] && t[|s|] == x; }
    }
  }

  /** A number is listed iff some revoked row has it. */
  lemma {:induction false} ListedIffRevoked(rows: seq<Row>, n: int)
    requires forall i :: 0 <= i < |rows| ==> SerialOk(rows[i].serial)
    ensures n in Listed(rows) <==>
            exists i :: 0 <= i < |rows| && rows[i].kind == 'R' && SerialNumber(rows[i].serial) == n
  {
    SomesMembers(Numbers(rows), n);
    if exists i :: 0 <= i < |rows| && rows[i].kind == 'R' && SerialNumber(rows[i].serial) == n {
      var i :| 0 <= i < |rows| && rows[i].kind == 'R' && SerialNumber(rows[i].serial) == n;
      assert Numbers(rows)[i] == Some(n);
    }
  }

  /** The spelling that decides which number a serial field denotes. */
  function Canonical(s: string): string {
    var d := Strip(Upper(SerialDigits(s)));
    if d != [] && s[0] == '-' then "-" + d else d
  }

  lemma {:induction false} CanonicalIffNumber(a: string, b: string)
    requires SerialOk(a) && SerialOk(b)
    ensures SerialNumber(a) == SerialNumber(b) <==> Canonical(a) == Canonical(b)
  {
    var x, y := Upper(SerialDigits(a)), Upper(SerialDigits(b));
    UpperValue(SerialDigits(a));
    UpperValue(SerialDigits(b));
    StripIffValue(x, y);
    ZeroIffStripEmpty(x);
    ZeroIffStripEmpty(y);
    StripStart(x);
    StripStart(y);
    if Strip(x) != Strip(y) && Canonical(a) == Canonical(b) {
      SignedDiffer(Strip(x), Strip(y));
    }
  }

  lemma {:induction false} SignedDiffer(x: string, y: string)
    requires Plain(x) && Plain(y) && x != y
    ensures "-" + x != "-" + y && "-" + x != y && x != "-" + y
  {
    assert ("-" + x)[1..] == x && ("-" + y)[1..] == y;
    assert ("-" + x)[0] == '-' && ("-" + y)[0] == '-';
  }

  lemma {:induction false} ZeroIffStripEmpty(s: string)
    requires Plain(s)
    ensures Value(s) == 0 <==> Strip(s) == []
  {
    StripIffValue(s, "");
  }

  /** Listing is free of repeats iff no two revoked rows differ in their spelling only. */
  lemma {:induction false} ListedOnce(rows: seq<Row>)
    requires forall i :: 0 <= i < |rows| ==> SerialOk(rows[i].serial)
    ensures NoRepeats(Listed(rows)) <==>
            forall i, j :: 0 <= i < j < |rows| && rows[i].kind == 'R' && rows[j].kind == 'R' ==>
              Canonical(rows[i].serial) != Canonical(rows[j].serial)
  {
    var s := Numbers(rows);
    SomesOnce(s);
    if NoRepeats(Somes(s)) {
      forall i, j | 0 <= i < j < |rows| && rows[i].kind == 'R' && rows[j].kind == 'R'
        ensures Canonical(rows[i].serial) != Canonical(rows[j].serial)
      {
        NumbersAgree(rows, i, j);
        assert s[i] != s[j];
      }
    } else {
      var i, j :| 0 <= i < j < |s| && s[i].Some? && s[i] == s[j];
      NumbersAgree(rows, i, j);
    }
  }

  lemma {:induction false} NumbersAgree(rows: seq<Row>, i: nat, j: nat)
    requires forall k :: 0 <= k < |rows| ==> SerialOk(rows[k].serial)
    requires i < |rows| && j < |rows| && rows[i].kind == 'R' && rows[j].kind == 'R'
    ensures Numbers(rows)[i].Some? && Numbers(rows)[j].Some?
    ensures Numbers(rows)[i] == Numbers(rows)[j] <==> Canonical(rows[i].serial) == Canonical(rows[j].serial)
  {
    CanonicalIffNumber(rows[i].serial, rows[j].serial);
  }

  /** Serials as the command spells them are different numbers when they are different to the index. */
  lemma {:induction false} OwnListedOnce(rows: seq<Row>)
    requires DistinctSerials(rows) && OwnSerials(rows)
    requires forall i :: 0 <= i < |rows| ==> SerialOk(rows[i].serial)
    ensures NoRepeats(Listed(rows))
  {
    forall i, j | 0 <= i < j < |rows| ensures Canonical(rows[i].serial) != Canonical(rows[j].serial) {
      if Canonical(rows[i].serial) == Canonical(rows[j].serial) {
        OwnCanonical(rows[i].serial, rows[j].serial);
      }
    }
    ListedOnce(rows);
  }

  lemma {:induction false} OwnCanonical(a: string, b: string)
    requires OwnSpelling(a) && SerialOk(a) && OwnSpelling(b) && SerialOk(b) && Canonical(a) == Canonical(b)
    ensures Strip(a) == Strip(b)
  {
    if Plain(a) { PlainCanonical(a); } else { SignedCanonical(a); }
    if Plain(b) { PlainCanonical(b); } else { SignedCanonical(b); }
    StripStart(a);
    StripStart(b);
  }

  lemma {:induction false} PlainCanonical(s: string)
    requires Plain(s) && SerialOk(s)
    ensures Canonical(s) == Strip(s)
  {
    assert s == [] || s[0] != '-';
    assert Upper(s) == s;
  }

  /** A signed spelling without a leading zero byte can be read off its canonical form. */
  lemma {:induction false} SignedCanonical(s: string)
    requires OwnSpelling(s) && !Plain(s) && SerialOk(s)
    ensures var c := Canonical(s);
            c != [] && c[0] == '-' && s == if |c| % 2 == 0 then "-0" + c[1..] else c
  {
    var d := s[1..];
    assert s == "-" + d;
    assert Upper(d) == d;
    assert Strip(d) == if d[0] == '0' then d[1..] else d;
    if d[0] == '0' { assert d == "0" + d[1..]; }
  }

  ghost predicate OwnSerials(rows: seq<Row>) { forall i :: 0 <= i < |rows| ==> OwnSpelling(rows[i].serial) }

  lemma {:induction false} RunKeepsOwn(db: Db, ops: seq<Op>, env: Env)
    requires OwnSerials(db.rows)
    ensures OwnSerials(RunOps(db, ops, env).rows)
    decreases |ops|
  {
    if ops != [] {
      var db' := Apply(db, ops[0], env);
      ApplyLater(db, ops[0], env);
      ApplyAddsOwnSerials(db, ops[0], env);
      forall i | 0 <= i < |db'.rows| ensures OwnSpelling(db'.rows[i].serial) {
        if i < |db.rows| { assert db'.rows[i].serial == db.rows[i].serial; }
      }
      RunKeepsOwn(db', ops[1..], env);
    }
  }

  lemma {:induction false} ApplyAddsOwnSerials(db: Db, op: Op, env: Env)
    ensures forall i :: |db.rows| <= i < |Apply(db, op, env).rows| ==> OwnSpelling(Apply(db, op, env).rows[i].serial)
  {
    match op {
      case Sign(cert) => SerialTextValue(cert.serial);
      case DoRevoke(cert, action, now) =>
        RevokeAddsSerial(db, cert, action, now, env);
        SerialTextValue(cert.serial);
      case DoUpdate(_) =>
    }
  }

  lemma {:induction false} RevokeAddsSerial(db: Db, cert: Cert, action: Action, now: string, env: Env)
    ensures var rows := RevokeCert(db, cert, action, now, env).0.rows;
            forall i :: |db.rows| <= i < |rows| ==> rows[i].serial == SerialText(cert.serial)
  {
    var i := Find(db.rows, SerialText(cert.serial));
    var (grown, ok) := Insert(db, NewRow(cert));
    if i == |db.rows| && ok {
      assert grown.rows[i] == NewRow(cert);
    }
  }

  /** The CRL after any run lists the number of every revoked row once, and no other number. */
  lemma {:induction false} CrlOfAnyRun(db: Db, ops: seq<Op>, env: Env)
    requires DbSound(db) && OwnSerials(db.rows)
    ensures var rows := RunOps(db, ops, env).rows;
            && RowsSound(rows) && NoRepeats(Listed(rows))
            && (forall n :: n in Listed(rows) <==>
                  exists i :: 0 <= i < |rows| && rows[i].kind == 'R' && SerialNumber(rows[i].serial) == n)
            && (forall i :: 0 <= i < |db.rows| && db.rows[i].kind == 'R' ==>
                  SerialNumber(db.rows[i].serial) in Listed(rows))
  {
    var rows := RunOps(db, ops, env).rows;
    RunKeeps(db, ops, env);
    RunKeepsOwn(db, ops, env);
    OwnListedOnce(rows);
    forall n
      ensures n in Listed(rows) <==>
              exists i :: 0 <= i < |rows| && rows[i].kind == 'R' && SerialNumber(rows[i].serial) == n
    {
      ListedIffRevoked(rows, n);
    }
    RunLater(db, ops, env);
    forall i | 0 <= i < |db.rows| && db.rows[i].kind == 'R' ensures SerialNumber(db.rows[i].serial) in Listed(rows) {
      assert rows[i] == db.rows[i];
    }
  }

  /** A database edited by hand can pass the checks and still list serial 10 twice. */
  lemma {:induction false} LowerCaseListedTwice(t: string, env: Env)
    requires env.lib.utcTime(t) && env.lib.anyTime(t) && CommaFree(t)
    ensures var rows := [Row('R', t, t, "0A", "unknown", "/CN=a"), Row('R', t, t, "0a", "unknown", "/CN=b")];
            Loadable(rows, true, env) && Listed(rows) == [10, 10]
  {
    var rows := [Row('R', t, t, "0A", "unknown", "/CN=a"), Row('R', t, t, "0a", "unknown", "/CN=b")];
    CommaOfPlain(t);
    TenSpelled();
    assert SerialOk("0A") && SerialOk("0a");
    assert Numbers(rows) == [Some(10), Some(10)];
    SomesTens();
  }

  lemma {:induction false} TenSpelled()
    ensures Value("0A") == 10 && Value("0a") == 10 && Strip("0A") == "A" && Strip("0a") == "a"
  {
    assert "0A"[1..] == "A" && "0a"[1..] == "a";
    assert "0A"[..1] == "0" && "0a"[..1] == "0" && "0"[..0] == "";
    assert Value("0") == 0;
  }

  lemma {:induction false} SomesTens()
    ensures Somes([Some(10), Some(10)]) == [10, 10]
  {
    assert [Some(10), Some(10)][..1] == [Some(10)] && [Some(10)][..0] == [];
    assert Somes([Some(10)]) == [10];
  }
}
