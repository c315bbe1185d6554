/** The SQLite-backed store: the `folders` and `requests` tables, the SQL
    statements the store issues against them, and the `DB` methods built on
    those statements.

    A table is a map from id to row. Each table has its AUTOINCREMENT
    counter (SQLite's `sqlite_sequence` entry): a new row gets the counter
    plus one, so ids are never reused. `CURRENT_TIMESTAMP` is the store's
    clock, a natural number that only moves forward and may stay put
    between statements (one-second precision). Foreign keys are declared in
    the schema but not enforced, because the connection never turns on
    `PRAGMA foreign_keys`: a parent or folder id may name no row, and a
    delete touches exactly one row. */
module Storage {
  import opened Common
  import opened Models
  import opened StringOrder
  import HeaderCodec

  const FolderNotFound := "folder not found"
  const RequestNotFound := "request not found"
  const DeserializeFailed := "failed to deserialize headers: "

  /** A row of `requests`: the headers column holds their encoded text. */
  datatype RequestRow = RequestRow(
    id: int,
    name: string,
    folderId: Option<int>,
    httpMethod: string,
    url: string,
    headers: string,
    body: string,
    createdAt: nat,
    updatedAt: nat)

  /** The whole persistent state: both tables and both AUTOINCREMENT counters. */
  datatype Tables = Tables(
    folders: map<int, Folder>,
    requests: map<int, RequestRow>,
    folderSeq: nat,
    requestSeq: nat)

  /** Every row sits under its own id, the id was issued by the counter, and
      its timestamps are ordered and not in the future. */
  ghost predicate ValidTables(t: Tables, now: nat)
  {
    && (forall id :: id in t.folders ==>
          1 <= id <= t.folderSeq && t.folders[id].id == id
          && t.folders[id].createdAt <= t.folders[id].updatedAt <= now)
    && (forall id :: id in t.requests ==>
          1 <= id <= t.requestSeq && t.requests[id].id == id
          && t.requests[id].createdAt <= t.requests[id].updatedAt <= now)
  }

  lemma ValidLater(t: Tables, now: nat, later: nat)
    requires ValidTables(t, now) && now <= later
    ensures ValidTables(t, later)
  {
  }

  // ------------------------------------------------------------ statements

  /** One statement's effect and its affected-row count. */
  datatype StmtResult = StmtResult(tables: Tables, rowsAffected: nat)

  /** The SQL statements the store runs, with their `?` arguments. */
  datatype Stmt =
    | InsertFolderSql(name: string, parentId: Option<int>)
    | UpdateFolderSql(id: int, name: string, parentId: Option<int>)
    | DeleteFolderSql(id: int)
    | InsertRequestSql(name: string, folderId: Option<int>, httpMethod: string,
                       url: string, headers: string, body: string)
    | UpdateRequestSql(id: int, name: string, folderId: Option<int>, httpMethod: string,
                       url: string, headers: string, body: string)
    | DeleteRequestSql(id: int)

  /** `INSERT INTO folders (name, parent_id) VALUES (?, ?)` */
  function InsertFolderRow(t: Tables, name: string, parentId: Option<int>, now: nat): (r: Tables)
    ensures r.folderSeq == t.folderSeq + 1
    ensures r.folders.Keys == t.folders.Keys + {r.folderSeq}
    ensures r.folders[r.folderSeq] == Folder(r.folderSeq, name, parentId, now, now)
    ensures r.requests == t.requests && r.requestSeq == t.requestSeq
    ensures ValidTables(t, now) ==>
      && ValidTables(r, now)
      && (forall id :: id in t.folders ==> id < r.folderSeq && r.folders[id] == t.folders[id])
  {
    var id := t.folderSeq + 1;
    t.(folders := t.folders[id := Folder(id, name, parentId, now, now)], folderSeq := id)
  }

  /** `UPDATE folders SET name = ?, parent_id = ?, updated_at = CURRENT_TIMESTAMP WHERE id = ?` */
  function UpdateFolderRow(t: Tables, id: int, name: string, parentId: Option<int>, now: nat): (r: StmtResult)
    ensures r.rowsAffected == (if id in t.folders then 1 else 0)
    ensures id !in t.folders ==> r.tables == t
    ensures r.tables.folders.Keys == t.folders.Keys
    ensures forall j :: j in t.folders && j != id ==> r.tables.folders[j] == t.folders[j]
    ensures id in t.folders ==>
      r.tables.folders[id] == Folder(t.folders[id].id, name, parentId, t.folders[id].createdAt, now)
    ensures r.tables.requests == t.requests
    ensures r.tables.folderSeq == t.folderSeq && r.tables.requestSeq == t.requestSeq
    ensures ValidTables(t, now) ==> ValidTables(r.tables, now)
  {
    if id in t.folders then
      var row := t.folders[id].(name := name, parentId := parentId, updatedAt := now);
      StmtResult(t.(folders := t.folders[id := row]), 1)
    else
      StmtResult(t, 0)
  }

  /** `DELETE FROM folders WHERE id = ?` */
  function DeleteFolderRow(t: Tables, id: int): (r: StmtResult)
    ensures r.rowsAffected == (if id in t.folders then 1 else 0)
    ensures r.tables.folders.Keys == t.folders.Keys - {id}
    ensures forall j :: j in r.tables.folders ==> r.tables.folders[j] == t.folders[j]
    ensures r.tables.requests == t.requests
    ensures r.tables.folderSeq == t.folderSeq && r.tables.requestSeq == t.requestSeq
    ensures forall now: nat :: ValidTables(t, now) ==> ValidTables(r.tables, now)
  {
    StmtResult(t.(folders := t.folders - {id}), if id in t.folders then 1 else 0)
  }

  /** `INSERT INTO requests (name, folder_id, method, url, headers, body) VALUES (?, ?, ?, ?, ?, ?)` */
  function InsertRequestRow(t: Tables, name: string, folderId: Option<int>, httpMethod: string,
                            url: string, headers: string, body: string, now: nat): (r: Tables)
    ensures r.requestSeq == t.requestSeq + 1
    ensures r.requests.Keys == t.requests.Keys + {r.requestSeq}
    ensures r.requests[r.requestSeq]
         == RequestRow(r.requestSeq, name, folderId, httpMethod, url, headers, body, now, now)
    ensures r.folders == t.folders && r.folderSeq == t.folderSeq
    ensures ValidTables(t, now) ==>
      && ValidTables(r, now)
      && (forall id :: id in t.requests ==> id < r.requestSeq && r.requests[id] == t.requests[id])
  {
    var id := t.requestSeq + 1;
    var row := RequestRow(id, name, folderId, httpMethod, url, headers, body, now, now);
    t.(requests := t.requests[id := row], requestSeq := id)
  }

  /** `UPDATE requests SET name = ?, folder_id = ?, method = ?, url = ?, headers = ?, body = ?,
      updated_at = CURRENT_TIMESTAMP WHERE id = ?` */
  function UpdateRequestRow(t: Tables, id: int, name: string, folderId: Option<int>, httpMethod: string,
                            url: string, headers: string, body: string, now: nat): (r: StmtResult)
    ensures r.rowsAffected == (if id in t.requests then 1 else 0)
    ensures id !in t.requests ==> r.tables == t
    ensures r.tables.requests.Keys == t.requests.Keys
    ensures forall j :: j in t.requests && j != id ==> r.tables.requests[j] == t.requests[j]
    ensures id in t.requests ==>
      r.tables.requests[id] == RequestRow(t.requests[id].id, name, folderId, httpMethod, url,
                                          headers, body, t.requests[id].createdAt, now)
    ensures r.tables.folders == t.folders
    ensures r.tables.folderSeq == t.folderSeq && r.tables.requestSeq == t.requestSeq
    ensures ValidTables(t, now) ==> ValidTables(r.tables, now)
  {
    if id in t.requests then
      var row := t.requests[id].(name := name, folderId := folderId, httpMethod := httpMethod,
                                 url := url, headers := headers, body := body, updatedAt := now);
      StmtResult(t.(requests := t.requests[id := row]), 1)
    else
      StmtResult(t, 0)
  }

  /** `DELETE FROM requests WHERE id = ?` */
  function DeleteRequestRow(t: Tables, id: int): (r: StmtResult)
    ensures r.rowsAffected == (if id in t.requests then 1 else 0)
    ensures r.tables.requests.Keys == t.requests.Keys - {id}
    ensures forall j :: j in r.tables.requests ==> r.tables.requests[j] == t.requests[j]
    ensures r.tables.folders == t.folders
    ensures r.tables.folderSeq == t.folderSeq && r.tables.requestSeq == t.requestSeq
    ensures forall now: nat :: ValidTables(t, now) ==> ValidTables(r.tables, now)
  {
    StmtResult(t.(requests := t.requests - {id}), if id in t.requests then 1 else 0)
  }

  function RunStmt(t: Tables, s: Stmt, now: nat): (r: StmtResult)
    ensures ValidTables(t, now) ==> ValidTables(r.tables, now)
  {
    match s
    case InsertFolderSql(name, parentId) => StmtResult(InsertFolderRow(t, name, parentId, now), 1)
    case UpdateFolderSql(id, name, parentId) => UpdateFolderRow(t, id, name, parentId, now)
    case DeleteFolderSql(id) => DeleteFolderRow(t, id)
    case InsertRequestSql(name, folderId, m, url, headers, body) =>
      StmtResult(InsertRequestRow(t, name, folderId, m, url, headers, body, now), 1)
    case UpdateRequestSql(id, name, folderId, m, url, headers, body) =>
      UpdateRequestRow(t, id, name, folderId, m, url, headers, body, now)
    case DeleteRequestSql(id) => DeleteRequestRow(t, id)
  }

  // ------------------------------------------------------------ transactions

  /** One step of a transaction's unit of work: a statement on the
      transaction, or the unit giving up with its own error. */
  datatype Action = Sql(stmt: Stmt) | Abort(error: string)

  /** The state a unit of work leaves behind when run from `t`, or the error
      of the first Abort it reaches, after which nothing else runs. */
  function RunUnit(t: Tables, unit: seq<Action>, now: nat): (r: Result<Tables>)
    ensures r.Ok? && ValidTables(t, now) ==> ValidTables(r.value, now)
    ensures r.Ok? <==> forall i :: 0 <= i < |unit| ==> unit[i].Sql?
    ensures r.Err? ==> exists i :: 0 <= i < |unit| && unit[i] == Abort(r.error)
                                   && forall j :: 0 <= j < i ==> unit[j].Sql?
    decreases |unit|
  {
    if unit == [] then Ok(t)
    else
      var prefix := unit[..|unit| - 1];
      var last := unit[|unit| - 1];
      assert forall i :: 0 <= i < |prefix| ==> prefix[i] == unit[i];
      match RunUnit(t, prefix, now)
      case Err(e) => Err(e)
      case Ok(t') =>
        match last
        case Abort(e) => Err(e)
        case Sql(s) => Ok(RunStmt(t', s, now).tables)
  }

  // ------------------------------------------------------------ reading rows

  /** A stored request row with its headers decoded. */
  function AsRequest(row: RequestRow, headers: map<string, string>): Request
  {
    Request(row.id, row.name, row.folderId, row.httpMethod, row.url, headers, row.body,
            row.createdAt, row.updatedAt)
  }

  /** The scan-and-decode step GetRequest and GetRequests share. */
  function ReadRequest(row: RequestRow): (r: Result<Request>)
    ensures r.Ok? <==> HeaderCodec.DeserializeHeaders(row.headers).Ok?
    ensures r.Ok? ==> r.value == AsRequest(row, HeaderCodec.DeserializeHeaders(row.headers).value)
    ensures r.Err? ==> r.error == DeserializeFailed + HeaderCodec.Malformed
  {
    match HeaderCodec.DeserializeHeaders(row.headers)
    case Ok(h) => Ok(AsRequest(row, h))
    case Err(e) => Err(DeserializeFailed + e)
  }

  /** A request stored with its headers encoded reads back as itself, under
      its new id and timestamps. */
  lemma ReadBackStored(req: Request, id: int, now: nat)
    ensures ReadRequest(RequestRow(id, req.name, req.folderId, req.httpMethod, req.url,
                                   HeaderCodec.SerializeHeaders(req.headers), req.body, now, now))
         == Ok(req.(id := id, createdAt := now, updatedAt := now))
  {
    HeaderCodec.RoundTrip(req.headers);
  }

  /** Some folder in `ids` has a name no greater than any other's there. */
  lemma LeastNameExists(folders: map<int, Folder>, ids: set<int>)
    requires ids != {} && ids <= folders.Keys
    ensures exists id :: id in ids && forall j :: j in ids ==> LessEq(folders[id].name, folders[j].name)
  {
    var names := set id | id in ids :: folders[id].name;
    var y := Choose(ids);
    assert folders[y].name in names;
    LeastExists(names);
    var m :| m in names && forall x :: x in names ==> LessEq(m, x);
    var id :| id in ids && folders[id].name == m;
    assert forall j :: j in ids ==> folders[j].name in names;
  }

  /** Some request in `ids` was updated no earlier than any other there. */
  lemma {:induction false} LatestExists(requests: map<int, RequestRow>, ids: set<int>)
    requires ids != {} && ids <= requests.Keys
    ensures exists id :: id in ids && forall j :: j in ids ==> requests[j].updatedAt <= requests[id].updatedAt
    decreases ids
  {
    var y := Choose(ids);
    if ids == {y} {
      assert forall j :: j in ids ==> j == y;
    } else {
      var rest := ids - {y};
      LatestExists(requests, rest);
      var m :| m in rest && forall j :: j in rest ==> requests[j].updatedAt <= requests[m].updatedAt;
      var latest := if requests[y].updatedAt <= requests[m].updatedAt then m else y;
      forall j | j in ids ensures requests[j].updatedAt <= requests[latest].updatedAt {
        if j != y {
          assert j in rest;
        }
      }
    }
  }

  /** `r` holds every row of `rows` exactly once. */
  ghost predicate ListsFolders(r: seq<Folder>, rows: map<int, Folder>)
  {
    && (forall i :: 0 <= i < |r| ==> r[i].id in rows && rows[r[i].id] == r[i])
    && (forall id :: id in rows ==> exists i :: 0 <= i < |r| && r[i].id == id)
    && (forall i, j :: 0 <= i < j < |r| ==> r[i].id != r[j].id)
  }

  /** `r` holds every row of `rows` exactly once, headers decoded. */
  ghost predicate ListsRequests(r: seq<Request>, rows: map<int, RequestRow>)
  {
    && (forall i :: 0 <= i < |r| ==> r[i].id in rows && ReadRequest(rows[r[i].id]) == Ok(r[i]))
    && (forall id :: id in rows ==> exists i :: 0 <= i < |r| && r[i].id == id)
    && (forall i, j :: 0 <= i < j < |r| ==> r[i].id != r[j].id)
  }

  // Partway through a listing, `remaining` holds the ids still to be read.
  // The list so far holds each row not in `remaining` exactly once, in order,
  // and none of it comes after a row still to be read.

  ghost predicate FoldersListed(r: seq<Folder>, rows: map<int, Folder>, remaining: set<int>)
  {
    && remaining <= rows.Keys
    && (forall i :: 0 <= i < |r| ==> r[i].id in rows && r[i].id !in remaining && rows[r[i].id] == r[i])
    && (forall i, j :: 0 <= i < j < |r| ==> r[i].id != r[j].id)
  }

  ghost predicate FoldersCovered(r: seq<Folder>, rows: map<int, Folder>, remaining: set<int>)
  {
    forall id :: id in rows && id !in remaining ==> exists i :: 0 <= i < |r| && r[i].id == id
  }

  ghost predicate FoldersOrdered(r: seq<Folder>, rows: map<int, Folder>, remaining: set<int>)
    requires remaining <= rows.Keys
  {
    && (forall i, j :: 0 <= i < j < |r| ==> LessEq(r[i].name, r[j].name))
    && (forall i, id :: 0 <= i < |r| && id in remaining ==> LessEq(r[i].name, rows[id].name))
  }

  lemma FoldersListedStep(r: seq<Folder>, rows: map<int, Folder>, remaining: set<int>, id: int)
    requires FoldersListed(r, rows, remaining) && id in remaining && rows[id].id == id
    ensures FoldersListed(r + [rows[id]], rows, remaining - {id})
  {
    var r' := r + [rows[id]];
    forall i, j | 0 <= i < j < |r'| ensures r'[i].id != r'[j].id {
      if j == |r| {
        assert r[i].id !in remaining;
      }
    }
  }

  lemma FoldersCoveredStep(r: seq<Folder>, rows: map<int, Folder>, remaining: set<int>, id: int)
    requires FoldersCovered(r, rows, remaining) && id in rows && rows[id].id == id
    ensures FoldersCovered(r + [rows[id]], rows, remaining - {id})
  {
    var r' := r + [rows[id]];
    forall k | k in rows && k !in remaining - {id} ensures exists i :: 0 <= i < |r'| && r'[i].id == k {
      if k == id {
        assert r'[|r|].id == k;
      } else {
        var i :| 0 <= i < |r| && r[i].id == k;
        assert r'[i].id == k;
      }
    }
  }

  lemma FoldersOrderedStep(r: seq<Folder>, rows: map<int, Folder>, remaining: set<int>, id: int)
    requires remaining <= rows.Keys && FoldersOrdered(r, rows, remaining)
    requires id in remaining && forall j :: j in remaining ==> LessEq(rows[id].name, rows[j].name)
    ensures FoldersOrdered(r + [rows[id]], rows, remaining - {id})
  {
    var r' := r + [rows[id]];
    assert forall i :: 0 <= i < |r| ==> r'[i] == r[i];
  }

  lemma FolderScanDone(r: seq<Folder>, rows: map<int, Folder>)
    requires FoldersListed(r, rows, {}) && FoldersCovered(r, rows, {}) && FoldersOrdered(r, rows, {})
    ensures ListsFolders(r, rows)
    ensures forall i, j :: 0 <= i < j < |r| ==> LessEq(r[i].name, r[j].name)
  {
  }

  ghost predicate RequestsListed(r: seq<Request>, rows: map<int, RequestRow>, remaining: set<int>,
                                 read: RequestRow -> Result<Request>)
  {
    && remaining <= rows.Keys
    && (forall i :: 0 <= i < |r| ==> r[i].id in rows && r[i].id !in remaining && read(rows[r[i].id]) == Ok(r[i]))
    && (forall i, j :: 0 <= i < j < |r| ==> r[i].id != r[j].id)
  }

  ghost predicate RequestsCovered(r: seq<Request>, rows: map<int, RequestRow>, remaining: set<int>)
  {
    forall id :: id in rows && id !in remaining ==> exists i :: 0 <= i < |r| && r[i].id == id
  }

  ghost predicate RequestsOrdered(r: seq<Request>, rows: map<int, RequestRow>, remaining: set<int>)
    requires remaining <= rows.Keys
  {
    && (forall i, j :: 0 <= i < j < |r| ==> r[i].updatedAt >= r[j].updatedAt)
    && (forall i, id :: 0 <= i < |r| && id in remaining ==> r[i].updatedAt >= rows[id].updatedAt)
  }

  lemma RequestsListedStep(r: seq<Request>, rows: map<int, RequestRow>, remaining: set<int>,
                           read: RequestRow -> Result<Request>, id: int, v: Request)
    requires RequestsListed(r, rows, remaining, read) && id in remaining
    requires read(rows[id]) == Ok(v) && v.id == id
    ensures RequestsListed(r + [v], rows, remaining - {id}, read)
  {
    var r' := r + [v];
    forall i, j | 0 <= i < j < |r'| ensures r'[i].id != r'[j].id {
      if j == |r| {
        assert r[i].id !in remaining;
      }
    }
  }

  lemma RequestsCoveredStep(r: seq<Request>, rows: map<int, RequestRow>, remaining: set<int>, id: int, v: Request)
    requires RequestsCovered(r, rows, remaining) && v.id == id
    ensures RequestsCovered(r + [v], rows, remaining - {id})
  {
    var r' := r + [v];
    forall k | k in rows && k !in remaining - {id} ensures exists i :: 0 <= i < |r'| && r'[i].id == k {
      if k == id {
        assert r'[|r|].id == k;
      } else {
        var i :| 0 <= i < |r| && r[i].id == k;
        assert r'[i].id == k;
      }
    }
  }

  lemma RequestsOrderedStep(r: seq<Request>, rows: map<int, RequestRow>, remaining: set<int>, id: int, v: Request)
    requires remaining <= rows.Keys && RequestsOrdered(r, rows, remaining)
    requires id in remaining && forall j :: j in remaining ==> rows[j].updatedAt <= rows[id].updatedAt
    requires v.updatedAt == rows[id].updatedAt
    ensures RequestsOrdered(r + [v], rows, remaining - {id})
  {
    var r' := r + [v];
    assert forall i :: 0 <= i < |r| ==> r'[i] == r[i];
  }

  /** A listing that got through every row has every row decoded. */
  lemma RequestScanDone(r: seq<Request>, rows: map<int, RequestRow>)
    requires RequestsListed(r, rows, {}, ReadRequest) && RequestsCovered(r, rows, {}) && RequestsOrdered(r, rows, {})
    ensures ListsRequests(r, rows)
    ensures forall id :: id in rows ==> ReadRequest(rows[id]).Ok?
    ensures forall i, j :: 0 <= i < j < |r| ==> r[i].updatedAt >= r[j].updatedAt
  {
    forall id | id in rows ensures ReadRequest(rows[id]).Ok? {
      var i :| 0 <= i < |r| && r[i].id == id;
    }
  }

  // ------------------------------------------------------------ the store

  class DB {
    var folders: map<int, Folder>
    var requests: map<int, RequestRow>
    var folderSeq: nat
    var requestSeq: nat
    /** CURRENT_TIMESTAMP */
    var clock: nat

    function State(): Tables
      reads this
    {
      Tables(folders, requests, folderSeq, requestSeq)
    }

    ghost predicate Valid()
      reads this
    {
      ValidTables(State(), clock)
    }

    /** A freshly created database: both tables empty, both counters zero. */
    constructor (startTime: nat)
      ensures Valid()
      ensures State() == Tables(map[], map[], 0, 0) && clock == startTime
    {
      folders, requests := map[], map[];
      folderSeq, requestSeq := 0, 0;
      clock := startTime;
    }

    /** Time passes between calls; the tables do not change. */
    method Tick(seconds: nat)
      requires Valid()
      modifies this
      ensures Valid()
      ensures clock == old(clock) + seconds && State() == old(State())
    {
      ValidLater(State(), clock, clock + seconds);
      clock := clock + seconds;
    }

    /** `db.Exec(s)` followed by `result.RowsAffected()`. */
    method Exec(s: Stmt) returns (rowsAffected: nat)
      requires Valid()
      modifies this
      ensures Valid() && clock == old(clock)
      ensures State() == RunStmt(old(State()), s, clock).tables
      ensures rowsAffected == RunStmt(old(State()), s, clock).rowsAffected
    {
      var r := RunStmt(State(), s, clock);
      folders, requests, folderSeq, requestSeq :=
        r.tables.folders, r.tables.requests, r.tables.folderSeq, r.tables.requestSeq;
      rowsAffected := r.rowsAffected;
    }

    // ---------------------------------------------------------- folders

    /** Inserts the folder and returns it as re-read from the table: a fresh id
        above every id the table ever issued, both timestamps now. */
    method CreateFolder(name: string, parentId: Option<int>) returns (r: Result<Folder>)
      requires Valid()
      modifies this
      ensures Valid() && clock == old(clock)
      ensures State() == InsertFolderRow(old(State()), name, parentId, clock)
      ensures r == Ok(Folder(old(folderSeq) + 1, name, parentId, clock, clock))
      ensures forall id :: id in old(folders) ==> id < r.value.id
    {
      var _ := Exec(InsertFolderSql(name, parentId));
      var id := folderSeq;  // result.LastInsertId()
      r := GetFolder(id);
    }

    method GetFolder(id: int) returns (r: Result<Folder>)
      ensures r.Ok? <==> id in folders
      ensures r.Ok? ==> r.value == folders[id]
      ensures r.Err? ==> r.error == FolderNotFound
    {
      if id in folders {
        r := Ok(folders[id]);
      } else {
        r := Err(FolderNotFound);
      }
    }

    /** `SELECT ... FROM folders ORDER BY name`, appended row by row: every
        folder exactly once, names ascending (ties in any order). */
    method GetFolders() returns (r: seq<Folder>)
      requires Valid()
      ensures ListsFolders(r, folders)
      ensures forall i, j :: 0 <= i < j < |r| ==> LessEq(r[i].name, r[j].name)
    {
      r := [];
      var remaining := folders.Keys;
      while remaining != {}
        invariant FoldersListed(r, folders, remaining)
        invariant FoldersCovered(r, folders, remaining)
        invariant FoldersOrdered(r, folders, remaining)
        decreases remaining
      {
        LeastNameExists(folders, remaining);
        var id :| id in remaining && forall j :: j in remaining ==> LessEq(folders[id].name, folders[j].name);
        FoldersListedStep(r, folders, remaining, id);
        FoldersCoveredStep(r, folders, remaining, id);
        FoldersOrderedStep(r, folders, remaining, id);
        r := r + [folders[id]];
        remaining := remaining - {id};
      }
      FolderScanDone(r, folders);
    }

    /** Sets the name and parent of an existing folder and stamps it; a missing
        id changes nothing and reports "folder not found". */
    method UpdateFolder(f: Folder) returns (err: Outcome)
      requires Valid()
      modifies this
      ensures Valid() && clock == old(clock)
      ensures State() == UpdateFolderRow(old(State()), f.id, f.name, f.parentId, clock).tables
      ensures err == (if f.id in old(folders) then Pass else Fail(FolderNotFound))
    {
      var rows := Exec(UpdateFolderSql(f.id, f.name, f.parentId));
      if rows == 0 {
        return Fail(FolderNotFound);
      }
      return Pass;
    }

    method DeleteFolder(id: int) returns (err: Outcome)
      requires Valid()
      modifies this
      ensures Valid() && clock == old(clock)
      ensures State() == DeleteFolderRow(old(State()), id).tables
      ensures err == (if id in old(folders) then Pass else Fail(FolderNotFound))
    {
      var rows := Exec(DeleteFolderSql(id));
      if rows == 0 {
        return Fail(FolderNotFound);
      }
      return Pass;
    }

    // ---------------------------------------------------------- requests

    /** Stores the request with its headers encoded and returns it as re-read:
        the caller's fields and headers, a fresh id, both timestamps now. */
    method CreateRequest(req: Request) returns (r: Result<Request>)
      requires Valid()
      modifies this
      ensures Valid() && clock == old(clock)
      ensures State() == InsertRequestRow(old(State()), req.name, req.folderId, req.httpMethod, req.url,
                                          HeaderCodec.SerializeHeaders(req.headers), req.body, clock)
      ensures r == Ok(req.(id := old(requestSeq) + 1, createdAt := clock, updatedAt := clock))
      ensures forall id :: id in old(requests) ==> id < r.value.id
    {
      var headersText := HeaderCodec.SerializeHeaders(req.headers);
      ghost var after := InsertRequestRow(State(), req.name, req.folderId, req.httpMethod, req.url,
                                          headersText, req.body, clock);
      var _ := Exec(InsertRequestSql(req.name, req.folderId, req.httpMethod, req.url, headersText, req.body));
      assert State() == after;
      var id := requestSeq;  // result.LastInsertId()
      assert requests[id] == RequestRow(id, req.name, req.folderId, req.httpMethod, req.url,
                                        headersText, req.body, clock, clock);
      assert id == old(requestSeq) + 1;
      ReadBackStored(req, id, clock);
      r := GetRequest(id);
      assert r == Ok(req.(id := id, createdAt := clock, updatedAt := clock));
    }

    method GetRequest(id: int) returns (r: Result<Request>)
      ensures id !in requests ==> r == Err(RequestNotFound)
      ensures id in requests ==> r == ReadRequest(requests[id])
    {
      if id !in requests {
        return Err(RequestNotFound);
      }
      r := ReadRequest(requests[id]);
    }

    /** `SELECT ... FROM requests ORDER BY updated_at DESC`, decoded row by
        row: every request exactly once, most recently updated first (ties in
        any order); one undecodable row fails the whole call. */
    method GetRequests() returns (r: Result<seq<Request>>)
      requires Valid()
      ensures r.Err? <==> exists id :: id in requests && ReadRequest(requests[id]).Err?
      ensures r.Err? ==> r.error == DeserializeFailed + HeaderCodec.Malformed
      ensures r.Ok? ==> ListsRequests(r.value, requests)
      ensures r.Ok? ==> forall i, j :: 0 <= i < j < |r.value| ==> r.value[i].updatedAt >= r.value[j].updatedAt
    {
      var list: seq<Request> := [];
      var remaining := requests.Keys;
      while remaining != {}
        invariant RequestsListed(list, requests, remaining, ReadRequest)
        invariant RequestsCovered(list, requests, remaining)
        invariant RequestsOrdered(list, requests, remaining)
        decreases remaining
      {
        LatestExists(requests, remaining);
        var id :| id in remaining && forall j :: j in remaining ==> requests[j].updatedAt <= requests[id].updatedAt;
        var read := ReadRequest(requests[id]);
        if read.Err? {
          return Err(read.error);
        }
        RequestsListedStep(list, requests, remaining, ReadRequest, id, read.value);
        RequestsCoveredStep(list, requests, remaining, id, read.value);
        RequestsOrderedStep(list, requests, remaining, id, read.value);
        list := list + [read.value];
        remaining := remaining - {id};
      }
      RequestScanDone(list, requests);
      r := Ok(list);
    }

    /** Rewrites every column of an existing request and stamps it; a missing
        id changes nothing and reports "request not found". */
    method UpdateRequest(req: Request) returns (err: Outcome)
      requires Valid()
      modifies this
      ensures Valid() && clock == old(clock)
      ensures State() == UpdateRequestRow(old(State()), req.id, req.name, req.folderId, req.httpMethod,
                                          req.url, HeaderCodec.SerializeHeaders(req.headers), req.body, clock).tables
      ensures err == (if req.id in old(requests) then Pass else Fail(RequestNotFound))
    {
      var headersText := HeaderCodec.SerializeHeaders(req.headers);
      var rows := Exec(UpdateRequestSql(req.id, req.name, req.folderId, req.httpMethod, req.url,
                                        headersText, req.body));
      if rows == 0 {
        return Fail(RequestNotFound);
      }
      return Pass;
    }

    method DeleteRequest(id: int) returns (err: Outcome)
      requires Valid()
      modifies this
      ensures Valid() && clock == old(clock)
      ensures State() == DeleteRequestRow(old(State()), id).tables
      ensures err == (if id in old(requests) then Pass else Fail(RequestNotFound))
    {
      var rows := Exec(DeleteRequestSql(id));
      if rows == 0 {
        return Fail(RequestNotFound);
      }
      return Pass;
    }

    // ---------------------------------------------------------- WithTx

    /** Runs the unit of work inside a transaction: if it gives up, everything
        it did is rolled back and its own error is returned as it is;
        otherwise its changes are kept. */
    method WithTx(unit: seq<Action>) returns (err: Outcome)
      requires Valid()
      modifies this
      ensures Valid() && clock == old(clock)
      ensures RunUnit(old(State()), unit, clock).Ok? ==>
                err == Pass && State() == RunUnit(old(State()), unit, clock).value
      ensures RunUnit(old(State()), unit, clock).Err? ==>
                err == Fail(RunUnit(old(State()), unit, clock).error) && State() == old(State())
    {
      var snapshot := State();
      var i := 0;
      while i < |unit|
        invariant 0 <= i <= |unit|
        invariant Valid() && clock == old(clock)
        invariant RunUnit(snapshot, unit[..i], clock) == Ok(State())
      {
        assert unit[..i + 1][..i] == unit[..i];
        match unit[i]
        case Abort(e) =>
          // tx.Rollback()
          folders, requests, folderSeq, requestSeq :=
            snapshot.folders, snapshot.requests, snapshot.folderSeq, snapshot.requestSeq;
          AbortPropagates(snapshot, unit, i, clock);
          return Fail(e);
        case Sql(s) =>
          var _ := Exec(s);
        i := i + 1;
      }
      assert unit[..i] == unit;
      return Pass;
    }
  }

  /** Once the unit reaches an Abort, its result is that Abort's error. */
  lemma AbortPropagates(t: Tables, unit: seq<Action>, i: nat, now: nat)
    requires i < |unit| && unit[i].Abort?
    requires RunUnit(t, unit[..i], now).Ok?
    ensures RunUnit(t, unit, now) == Err(unit[i].error)
  {
    var r := RunUnit(t, unit, now);
    assert forall j :: 0 <= j < i ==> unit[..i][j] == unit[j];
    assert r.Err?;
    var k :| 0 <= k < |unit| && unit[k] == Abort(r.error) && forall j :: 0 <= j < k ==> unit[j].Sql?;
    assert k == i;
  }
}
