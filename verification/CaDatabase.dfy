/**
 The database as ca.c works on it: rows changed in place, found through the serial index.
 */
module CaDatabase {
  import opened Wrappers
  import opened CText
  import opened CaSerial
  import opened CaRevocation
  import opened CaExpiry
  import opened CaDatabaseSpec

  /** The field checks of `ca_main`, row by row. */
  method CheckRows(rows: seq<Row>, env: Env) returns (ok: bool)
    ensures ok <==> RowsOk(rows, env)
    ensures ok <==>
            forall i :: 0 <= i < |rows| ==>
              && (rows[i].kind == 'R' ==> Unpack(env.words, rows[i].revDate, env.lib).Some?)
              && (rows[i].kind != 'R' ==> rows[i].revDate == "")
              && env.lib.anyTime(rows[i].expDate) && SerialOk(rows[i].serial)
  {
    for i := 0 to |rows|
      invariant forall k :: 0 <= k < i ==> RowOk(rows[k], env)
    {
      if rows[i].kind != 'R' && rows[i].revDate != "" {
        return false;
      }
      if rows[i].kind == 'R' {
        var info := UnpackRevinfo(env.words, rows[i].revDate, env.lib);
        if info == None {
          return false;
        }
      }
      if !env.lib.anyTime(rows[i].expDate) {
        return false;
      }
      var good := CheckSerial(rows[i].serial);
      if !good {
        return false;
      }
    }
    return true;
  }

  method CheckSerial(serial: string) returns (ok: bool)
    ensures ok <==> SerialOk(serial)
  {
    var p, j := 0, |serial|;
    if serial != [] && serial[0] == '-' {
      p, j := 1, j - 1;
    }
    assert serial[p..] == SerialDigits(serial);
    if j % 2 == 1 || j < 2 {
      return false;
    }
    while p < |serial|
      invariant |serial| - j <= p <= |serial|
      invariant forall k :: |serial| - j <= k < p ==> IsXDigit(serial[k])
    {
      if !IsXDigit(serial[p]) {
        assert SerialDigits(serial)[p - (|serial| - j)] == serial[p];
        return false;
      }
      p := p + 1;
    }
    return true;
  }

  /** The comparison of `do_updatedb` with its two flags. */
  method IsExpired(expDate: string, now: string) returns (expired: bool)
    ensures expired == Expired(expDate, now)
  {
    var dbY2k := if Y2k(expDate) then 1 else 0;
    var nowY2k := if Y2k(now) then 1 else 0;
    if dbY2k == nowY2k {
      expired := Strcmp(expDate, now) <= 0;
    } else {
      expired := dbY2k < nowY2k;
    }
  }

  /** `index_index`: both indexes can be built, that is, no two rows clash. */
  method CheckIndexes(rows: seq<Row>, unique: bool) returns (ok: bool)
    ensures ok <==> DistinctSerials(rows) && (unique ==> DistinctNames(rows))
  {
    for j := 0 to |rows|
      invariant forall i, k :: 0 <= i < k < j ==> Strip(rows[i].serial) != Strip(rows[k].serial)
      invariant unique ==> forall i, k :: 0 <= i < k < j && rows[i].kind == 'V' && rows[k].kind == 'V' ==>
                  rows[i].name != rows[k].name
    {
      for i := 0 to j
        invariant forall h :: 0 <= h < i ==> Strip(rows[h].serial) != Strip(rows[j].serial)
        invariant unique ==> forall h :: 0 <= h < i && rows[h].kind == 'V' && rows[j].kind == 'V' ==>
                    rows[h].name != rows[j].name
      {
        var c := IndexSerialCmp(rows[i].serial, rows[j].serial);
        if c == 0 {
          return false;
        }
        if unique && rows[i].kind == 'V' && rows[j].kind == 'V' && rows[i].name == rows[j].name {
          return false;
        }
      }
    }
    return true;
  }

  /** A database that passes every check at start-up is in order. */
  method Load(rows: seq<Row>, unique: bool, env: Env) returns (db: Database?)
    ensures db != null <==> Loadable(rows, unique, env)
    ensures db != null ==> db.rows == rows && db.unique == unique && DbSound(db.State())
  {
    var ok := CheckRows(rows, env);
    if !ok {
      return null;
    }
    ok := CheckIndexes(rows, unique);
    if !ok {
      return null;
    }
    LoadedIsSound(rows, unique, env);
    db := new Database(rows, unique);
  }

  class Database {
    var rows: seq<Row>
    const unique: bool
    var named: set<nat>

    ghost function State(): Db
      reads this
    {
      Db(rows, unique, named)
    }

    /** `load_index` and `index_index` on rows that passed the field checks. */
    constructor (rows: seq<Row>, unique: bool)
      ensures State() == Db(rows, unique, ValidRows(rows))
    {
      this.rows, this.unique := rows, unique;
      named := set i: nat | i < |rows| && rows[i].kind == 'V';
    }

    method Lookup(serial: string) returns (i: nat)
      ensures i == Find(rows, serial)
    {
      i := 0;
      while i < |rows|
        invariant i <= |rows| && forall j :: 0 <= j < i ==> Strip(rows[j].serial) != Strip(serial)
      {
        var c := IndexSerialCmp(rows[i].serial, serial);
        if c == 0 {
          return;
        }
        i := i + 1;
      }
    }

    method InsertRow(row: Row) returns (ok: bool)
      modifies this
      ensures (State(), ok) == Insert(old(State()), row)
    {
      var i := Lookup(row.serial);
      if i < |rows| {
        return false;
      }
      if unique && row.kind == 'V' {
        var j := 0;
        while j < |rows|
          invariant j <= |rows| && forall k :: 0 <= k < j ==> !(k in named && rows[k].name == row.name)
        {
          if j in named && rows[j].name == row.name {
            return false;
          }
          j := j + 1;
        }
        named := named + {|rows|};
      }
      rows := rows + [row];
      return true;
    }

    /** `do_revoke`: calls itself once at most, after the row it was looking for has been added. */
    method Revoke(cert: Cert, action: Action, now: string, env: Env) returns (ok: bool)
      modifies this
      ensures (State(), ok) == RevokeCert(old(State()), cert, action, now, env)
      decreases Find(rows, SerialText(cert.serial)) == |rows|
    {
      var i := Lookup(SerialText(cert.serial));
      if i == |rows| {
        ghost var before := State();
        ok := InsertRow(NewRow(cert));
        if ok {
          AddedIsFound(before, cert);
          if action.Revoke? {
            ok := Revoke(cert, action, now, env);
            RevokeAfterInsert(before, cert, action, now, env);
          }
        }
        return;
      }
      if rows[i].name != cert.name {
        return false;
      }
      if action.Record? {
        return false;
      }
      if rows[i].kind == 'R' {
        return false;
      }
      var text := MakeRevocationStr(env.words, action.why, now, env.lib);
      if text == null {
        return false;
      }
      rows := rows[i := rows[i].(kind := 'R', revDate := text[..text.Length - 1])];
      return true;
    }

    /** `do_updatedb`: the count is the number of rows that were flipped. */
    method UpdateDb(now: string) returns (cnt: nat)
      modifies this`rows
      ensures State() == Update(old(State()), now)
      ensures cnt == Flips(old(rows), now)
    {
      cnt := 0;
      ghost var was := rows;
      for i := 0 to |rows|
        invariant |rows| == |was|
        invariant forall k :: 0 <= k < i ==> rows[k] == Aged(was[k], now)
        invariant forall k :: i <= k < |rows| ==> rows[k] == was[k]
        invariant cnt == Flips(was[..i], now)
      {
        assert was[..i + 1][..i] == was[..i];
        if rows[i].kind == 'V' {
          var expired := IsExpired(rows[i].expDate, now);
          if expired {
            rows := rows[i := rows[i].(kind := 'E')];
            cnt := cnt + 1;
          }
        }
      }
      assert was[..|was|] == was;
      assert rows == Update(old(State()), now).rows;
    }

    /** `get_certificate_status`: the type of the row with that number, however it is spelled. */
    method Status(serial: string) returns (kind: Option<char>, ok: bool)
      requires forall i :: 0 <= i < |serial| ==> serial[i] != '\0'
      ensures kind == (var i := Find(rows, Query(serial)); if i < |rows| then Some(rows[i].kind) else None)
      ensures ok <==> kind.Some? && kind.value in ['V', 'R', 'E', 'S']
      ensures Hex(serial) ==>
                (kind.Some? <==> exists i :: 0 <= i < |rows| && Denotes(rows[i].serial, Value(serial)))
      ensures Hex(serial) && DistinctSerials(rows) ==>
                forall i :: 0 <= i < |rows| && Denotes(rows[i].serial, Value(serial)) ==> kind == Some(rows[i].kind)
    {
      var buf := new char[|serial| + 2];
      var len := NormaliseQuery(serial, buf);
      var i := Lookup(buf[..len]);
      if Hex(serial) {
        StatusByValue(rows, serial);
      }
      if i == |rows| {
        return None, false;
      }
      kind := Some(rows[i].kind);
      ok := rows[i].kind == 'V' || rows[i].kind == 'R' || rows[i].kind == 'E' || rows[i].kind == 'S';
    }

    /** The CRL loop of `ca_main`; `None` when a revocation field cannot be read. */
    method MakeCrl(env: Env) returns (serials: Option<seq<int>>)
      requires RowsSound(rows)
      ensures serials.Some? <==> RevocationsReadable(rows, env)
      ensures serials.Some? ==> serials.value == Listed(rows)
    {
      var list: seq<int> := [];
      ghost var numbers := Numbers(rows);
      for i := 0 to |rows|
        invariant list == Somes(numbers[..i]) && RevocationsReadable(rows[..i], env)
      {
        SomesPrefix(numbers, i);
        ReadablePrefix(rows, i, env);
        assert RowSound(rows[i]);
        var ok, number := CrlEntry(rows[i], env);
        if !ok {
          return None;
        }
        list := if number.Some? then list + [number.value] else list;
      }
      assert numbers[..|rows|] == numbers && rows[..|rows|] == rows;
      return Some(list);
    }
  }

  lemma {:induction false} ReadablePrefix(rows: seq<Row>, i: nat, env: Env)
    requires i < |rows|
    ensures RevocationsReadable(rows[..i + 1], env) <==>
            RevocationsReadable(rows[..i], env) && RevocationReadable(rows[i], env)
    ensures !RevocationReadable(rows[i], env) ==> !RevocationsReadable(rows, env)
  {
    assert rows[..i + 1] == rows[..i] + [rows[i]];
    if RevocationsReadable(rows[..i + 1], env) {
      assert rows[..i + 1][i] == rows[i];
      forall k | 0 <= k < i ensures RevocationReadable(rows[..i][k], env) { assert rows[..i][k] == rows[..i + 1][k]; }
    }
  }

  /** What one row contributes to the CRL. */
  method CrlEntry(row: Row, env: Env) returns (ok: bool, number: Option<int>)
    requires SerialOk(row.serial)
    ensures ok <==> RevocationReadable(row, env)
    ensures ok ==> number == if row.kind == 'R' then Some(SerialNumber(row.serial)) else None
  {
    if row.kind != 'R' {
      return true, None;
    }
    var info := UnpackRevinfo(env.words, row.revDate, env.lib);
    return info.Some?, Some(SerialNumber(row.serial));
  }

  lemma {:induction false} SomesPrefix(s: seq<Option<int>>, i: nat)
    requires i < |s|
    ensures Somes(s[..i + 1]) == if s[i].Some? then Somes(s[..i]) + [s[i].value] else Somes(s[..i])
  {
    assert s[..i + 1][..i] == s[..i];
    assert Somes(s[..i]) + [] == Somes(s[..i]);
  }

  /** A row that was just added is the one the next search finds. */
  lemma {:induction false} AddedIsFound(db: Db, cert: Cert)
    requires Insert(db, NewRow(cert)).1
    ensures Find(Insert(db, NewRow(cert)).0.rows, SerialText(cert.serial)) == |db.rows|
  {
    var rows := Insert(db, NewRow(cert)).0.rows;
    assert rows[|db.rows|].serial == SerialText(cert.serial);
    assert forall j :: 0 <= j < |db.rows| ==> rows[j] == db.rows[j];
  }

  lemma {:induction false} RevokeAfterInsert(db: Db, cert: Cert, action: Action, now: string, env: Env)
    requires action.Revoke? && Insert(db, NewRow(cert)).1
    ensures RevokeCert(Insert(db, NewRow(cert)).0, cert, action, now, env) == RevokeCert(db, cert, action, now, env)
  {
    AddedIsFound(db, cert);
  }

  /** Upper-case spellings of a number, which are the ones that are found. */
  predicate Denotes(field: string, n: nat) { Plain(field) && Value(field) == n }

  lemma {:induction false} StatusByValue(rows: seq<Row>, serial: string)
    requires Hex(serial)
    ensures Find(rows, Query(serial)) < |rows| <==>
            exists i :: 0 <= i < |rows| && Denotes(rows[i].serial, Value(serial))
    ensures DistinctSerials(rows) ==>
              forall i :: 0 <= i < |rows| && Denotes(rows[i].serial, Value(serial)) ==> Find(rows, Query(serial)) == i
  {
    forall i | 0 <= i < |rows|
      ensures Strip(rows[i].serial) == Strip(Query(serial)) <==> Denotes(rows[i].serial, Value(serial))
    {
      QueryFinds(rows[i].serial, serial);
    }
  }
}
