/** The worker script (`onModuleReady`, `onError`, `onmessage`): one global
    `db`, null or a Database, and one reply per message posted back, or an
    error reply `{id, error: err.message}` when handling the message threw.
    Posting is modelled as appending to `outbox`. */
module SqlWorker {
  import opened Base
  import opened SqlDb

  /** A message's `id`, passed back untouched; None when it has none. */
  type Id = Option<int>

  /** A message's `action`: a string, or any other value (an array, a
      String object, a number, null), kept as the text it renders to. The
      switch compares with `===`, so only a string can match a case. */
  datatype Action = Str(s: string) | Other(shown: string)

  /** The fields of a message's data that the handler reads; None stands
      for an `action` that is `undefined` and for a `buffer` that is null or
      `undefined`. */
  datatype Request = Request(
    action: Option<Action>,
    id: Id,
    sql: Option<JsString>,
    params: Option<Params>,
    buffer: Option<Image>)

  /** The messages the worker posts. */
  datatype Reply =
    | Ready(id: Id)
    | Results(id: Id, results: seq<ResultSet>)
    | RowReply(id: Id, row: map<JsString, Option<Value>>)
    | Finished(id: Id)
    | Exported(id: Id, buffer: seq<Byte>)
    | Closed(id: Id)
    | Failure(id: Id, error: Option<string>)

  const MissingQuery: string := "exec: Missing query string"
  const InvalidAction: string := "Invalid action : "
  /** The TypeError V8 raises for `db["export"]` while `db` is null. */
  const NullExport: string := "Cannot read properties of null (reading 'export')"

  /** `err["message"]`: Error objects carry one, strings do not. */
  function MessageOf(t: Thrown): Option<string>
    requires !t.ThrownNull?
  {
    if t.ThrownError? then Some(t.message) else None
  }

  /** onError's reply; none for a thrown null, since reading its message
      throws again. */
  function ErrorReplies(id: Id, t: Thrown): (rs: seq<Reply>)
    ensures t.ThrownNull? <==> rs == []
    ensures t.ThrownString? ==> rs == [Failure(id, None)]
    ensures t.ThrownError? ==> rs == [Failure(id, Some(t.message))]
  {
    if t.ThrownNull? then [] else [Failure(id, MessageOf(t))]
  }

  /** `!data["sql"]`: a missing or empty query is falsy. */
  predicate Falsy(sql: Option<JsString>) {
    sql.None? || sql.value == []
  }

  /** The text `"Invalid action : " + action` renders an action to. */
  function ActionText(action: Option<Action>): string {
    match action
    case None => "undefined"
    case Some(Str(s)) => s
    case Some(Other(shown)) => shown
  }

  /** The action names the handler knows. */
  predicate Known(action: Option<Action>) {
    action == Some(Str("open")) || action == Some(Str("exec")) || action == Some(Str("each")) ||
    action == Some(Str("export")) || action == Some(Str("close"))
  }

  /** One row reply per row, keeping their order. */
  function RowReplies(id: Id, rows: seq<map<JsString, Option<Value>>>): (rs: seq<Reply>)
    ensures |rs| == |rows|
    ensures forall i :: 0 <= i < |rows| ==> rs[i] == RowReply(id, rows[i])
  {
    if rows == [] then [] else [RowReply(id, rows[0])] + RowReplies(id, rows[1..])
  }

  /** What the worker's `db` looks like to the handlers: null, or a
      database with its handle, file name and registered statements. */
  datatype DbView = NoDb | Db(handle: Option<nat>, filename: JsString, keys: set<nat>)

  /** What handling one message does: the engine calls made, the replies
      posted by the action itself, and what it threw, if anything. */
  datatype Outcome = Outcome(trace: Trace, posted: seq<Reply>, thrown: Option<Thrown>)

  /** Everything a message makes the worker post: the action's own replies,
      then onError's reply when the action threw. */
  function Posted(id: Id, e: Outcome): seq<Reply>
  {
    e.posted + (if e.thrown.Some? then ErrorReplies(id, e.thrown.value) else [])
  }

  /** The handle number the engine receives for a database's handle. */
  function HandleNumber(handle: Option<nat>): nat
  {
    if handle.Some? then handle.value else 0
  }

  /** createDb: close the database in `db`, if any (a closed one makes no
      call), then open a new one; the new database's handle, or the first
      thing thrown. */
  ghost function CreateOf(o: Oracle, t: Trace, v: DbView, image: Option<Image>, filename: JsString): (Trace, Result<nat, Thrown>)
  {
    var (t1, c) := if v.Db? && v.handle.Some? then CloseOf(o, t, v.handle.value, v.filename, v.keys) else (t, Ok(()));
    if c.Err? then (t1, Err(c.error)) else OpenOf(o, t1, filename, image)
  }

  /** The "open" action: createDb on the buffer, then {id, ready: true}. */
  ghost function OpenOutcome(o: Oracle, t: Trace, v: DbView, req: Request, filename: JsString): Outcome
  {
    var (t1, made) := CreateOf(o, t, v, req.buffer, filename);
    if made.Err? then Outcome(t1, [], Some(made.error)) else Outcome(t1, [Ready(req.id)], None)
  }

  /** The handle exec and each work on: `db`'s, or, while `db` is null, the
      handle of a database they create first (or what that threw). */
  ghost function EnsureDb(o: Oracle, t: Trace, v: DbView, filename: JsString): (Trace, Result<Option<nat>, Thrown>)
  {
    if v.NoDb? then
      var (t1, made) := CreateOf(o, t, v, None, filename);
      (t1, if made.Err? then Err(made.error) else Ok(Some(made.value)))
    else (t, Ok(v.handle))
  }

  /** The "exec" action: a falsy sql throws before any SQL runs; otherwise
      {id, results} with what exec returned. */
  ghost function ExecOutcome(o: Oracle, t: Trace, v: DbView, req: Request, filename: JsString): Outcome
    requires WellBehaved(o)
  {
    var (t1, handle) := EnsureDb(o, t, v, filename);
    if handle.Err? then Outcome(t1, [], Some(handle.error))
    else if Falsy(req.sql) then Outcome(t1, [], Some(ThrownString(MissingQuery)))
    else
      var (t2, r) := ExecScript(o, t1, handle.value, req.sql.value, req.params);
      if r.Err? then Outcome(t2, [], Some(r.error)) else Outcome(t2, [Results(req.id, r.value)], None)
  }

  /** The "each" action: a row reply per row, in order, then
      {id, finished: true} unless stepping threw. */
  ghost function EachOutcome(o: Oracle, t: Trace, v: DbView, req: Request, filename: JsString): Outcome
    requires WellBehaved(o)
  {
    var (t1, handle) := EnsureDb(o, t, v, filename);
    if handle.Err? then Outcome(t1, [], Some(handle.error))
    else
      var sql := if req.sql.Some? then req.sql.value else [];
      var (t2, rows, r) := EachOf(o, t1, HandleNumber(handle.value), sql, req.params);
      Outcome(t2, RowReplies(req.id, rows) + (if r.Ok? then [Finished(req.id)] else []), if r.Err? then Some(r.error) else None)
  }

  /** The "export" action: a TypeError while `db` is null, otherwise
      {id, buffer} with the exported bytes. */
  ghost function ExportOutcome(o: Oracle, t: Trace, v: DbView, req: Request): Outcome
  {
    if v.NoDb? then Outcome(t, [], Some(ThrownError(NullExport)))
    else
      var (t1, r) := ExportOf(o, t, HandleNumber(v.handle), v.filename, v.keys);
      if r.Err? then Outcome(t1, [], Some(r.error)) else Outcome(t1, [Exported(req.id, r.value)], None)
  }

  /** The "close" action: close `db` when it is there (a closed one makes no
      call), then {id}. */
  ghost function CloseOutcome(o: Oracle, t: Trace, v: DbView, req: Request): Outcome
  {
    if v.NoDb? || v.handle.None? then Outcome(t, [Closed(req.id)], None)
    else
      var (t1, r) := CloseOf(o, t, v.handle.value, v.filename, v.keys);
      if r.Err? then Outcome(t1, [], Some(r.error)) else Outcome(t1, [Closed(req.id)], None)
  }

  /** onModuleReady on a message, or the load failure every message meets
      when the module did not load. */
  ghost function Respond(o: Oracle, t: Trace, v: DbView, loadError: Option<string>, req: Request, filename: JsString): Outcome
    requires WellBehaved(o)
  {
    if loadError.Some? then Outcome(t, [], Some(ThrownError(loadError.value)))
    else if req.action == Some(Str("open")) then OpenOutcome(o, t, v, req, filename)
    else if req.action == Some(Str("exec")) then ExecOutcome(o, t, v, req, filename)
    else if req.action == Some(Str("each")) then EachOutcome(o, t, v, req, filename)
    else if req.action == Some(Str("export")) then ExportOutcome(o, t, v, req)
    else if req.action == Some(Str("close")) then CloseOutcome(o, t, v, req)
    else Outcome(t, [], Some(ThrownError(InvalidAction + ActionText(req.action))))
  }

  /** The switch matches only a string action: any other action, even one
      that renders to a case's name (an array ["open"], a String object),
      makes no call and throws "Invalid action : " with its rendering, and
      so does a string that names no case. */
  lemma UnknownActionInvalid(o: Oracle, t: Trace, v: DbView, req: Request, filename: JsString)
    requires WellBehaved(o) && !Known(req.action)
    ensures Respond(o, t, v, None, req, filename) == Outcome(t, [], Some(ThrownError(InvalidAction + ActionText(req.action))))
    ensures req.action.Some? && req.action.value.Other? ==>
      Respond(o, t, v, None, req, filename).thrown == Some(ThrownError(InvalidAction + req.action.value.shown))
  {
  }

  /** A message whose action is the array ["open"] is not an "open": it
      throws "Invalid action : open" and opens nothing. */
  lemma ArrayOpenInvalid(o: Oracle, t: Trace, v: DbView, req: Request, filename: JsString)
    requires WellBehaved(o) && req.action == Some(Other("open"))
    ensures Respond(o, t, v, None, req, filename) == Outcome(t, [], Some(ThrownError(InvalidAction + "open")))
  {
    assert !Known(req.action);
  }

  // ----- what every message's replies have in common -----

  /** Every reply a message causes carries the message's id. */
  lemma RespondIds(o: Oracle, t: Trace, v: DbView, loadError: Option<string>, req: Request, filename: JsString)
    requires WellBehaved(o)
    ensures var ps := Posted(req.id, Respond(o, t, v, loadError, req, filename));
      forall i :: 0 <= i < |ps| ==> ps[i].id == req.id
  {
    var e := Respond(o, t, v, loadError, req, filename);
    var ps := Posted(req.id, e);
    forall i | 0 <= i < |ps|
      ensures ps[i].id == req.id
    {
      if i < |e.posted| && req.action == Some(Str("each")) && loadError.None? {
        var (t1, handle) := EnsureDb(o, t, v, filename);
        if handle.Ok? {
          var sql := if req.sql.Some? then req.sql.value else [];
          var (t2, rows, r) := EachOf(o, t1, HandleNumber(handle.value), sql, req.params);
          if i < |rows| {
            assert e.posted[i] == RowReplies(req.id, rows)[i];
          }
        }
      }
    }
  }

  /** The shape of a message's replies: the action's own replies hold no
      failure, a failure comes last exactly when the action threw something
      other than null, and an action that did not throw posted something. */
  ghost predicate FailureLast(id: Id, e: Outcome)
  {
    var ps := Posted(id, e);
    (forall i :: 0 <= i < |e.posted| ==> !ps[i].Failure?) &&
    (|ps| > 0 && ps[|ps| - 1].Failure? <==> e.thrown.Some? && !e.thrown.value.ThrownNull?) &&
    (e.thrown.None? ==> ps == e.posted && |ps| > 0)
  }

  /** Every message's replies have that shape. */
  lemma RespondFailureLast(o: Oracle, t: Trace, v: DbView, loadError: Option<string>, req: Request, filename: JsString)
    requires WellBehaved(o)
    ensures FailureLast(req.id, Respond(o, t, v, loadError, req, filename))
  {
    if loadError.None? && req.action == Some(Str("each")) {
      EachFailureLast(o, t, v, req, filename);
    }
  }

  lemma EachFailureLast(o: Oracle, t: Trace, v: DbView, req: Request, filename: JsString)
    requires WellBehaved(o)
    ensures FailureLast(req.id, EachOutcome(o, t, v, req, filename))
  {
    var e := EachOutcome(o, t, v, req, filename);
    var (t1, handle) := EnsureDb(o, t, v, filename);
    if handle.Ok? {
      var sql := if req.sql.Some? then req.sql.value else [];
      var (t2, rows, r) := EachOf(o, t1, HandleNumber(handle.value), sql, req.params);
      var rs := RowReplies(req.id, rows);
      assert e.posted == rs + (if r.Ok? then [Finished(req.id)] else []);
      if r.Err? && e.thrown.value.ThrownNull? && |rs| > 0 {
        assert Posted(req.id, e)[|rs| - 1] == rs[|rs| - 1];
      }
    }
  }

  /** Only "each" posts more than one reply per message. */
  lemma RespondSingle(o: Oracle, t: Trace, v: DbView, loadError: Option<string>, req: Request, filename: JsString)
    requires WellBehaved(o)
    requires loadError.Some? || req.action != Some(Str("each"))
    ensures |Posted(req.id, Respond(o, t, v, loadError, req, filename))| <= 1
  {
  }

  /** Handling a message only appends engine calls. */
  lemma RespondGrows(o: Oracle, t: Trace, v: DbView, loadError: Option<string>, req: Request, filename: JsString)
    requires WellBehaved(o)
    ensures t <= Respond(o, t, v, loadError, req, filename).trace
  {
    if loadError.Some? {
    } else if req.action == Some(Str("open")) {
      OpenOutcomeGrows(o, t, v, req, filename);
    } else if req.action == Some(Str("exec")) {
      ExecOutcomeGrows(o, t, v, req, filename);
    } else if req.action == Some(Str("each")) {
      EachOutcomeGrows(o, t, v, req, filename);
    } else if req.action == Some(Str("export")) {
      ExportOutcomeGrows(o, t, v, req);
    } else if req.action == Some(Str("close")) {
      CloseOutcomeGrows(o, t, v, req);
    }
  }

  // Open, export and close only ever append to the trace.

  lemma OpenOutcomeGrows(o: Oracle, t: Trace, v: DbView, req: Request, filename: JsString)
    ensures t <= OpenOutcome(o, t, v, req, filename).trace
  {
  }

  lemma ExportOutcomeGrows(o: Oracle, t: Trace, v: DbView, req: Request)
    ensures t <= ExportOutcome(o, t, v, req).trace
  {
  }

  lemma CloseOutcomeGrows(o: Oracle, t: Trace, v: DbView, req: Request)
    ensures t <= CloseOutcome(o, t, v, req).trace
  {
  }

  lemma ExecOutcomeGrows(o: Oracle, t: Trace, v: DbView, req: Request, filename: JsString)
    requires WellBehaved(o)
    ensures t <= ExecOutcome(o, t, v, req, filename).trace
  {
    var (t1, handle) := EnsureDb(o, t, v, filename);
    assert t <= t1;
    if handle.Ok? && !Falsy(req.sql) && handle.value.Some? && handle.value.value != 0 {
      ExecOfResults(o, t1, handle.value.value, req.sql.value, req.params, false, []);
    }
  }

  lemma EachOutcomeGrows(o: Oracle, t: Trace, v: DbView, req: Request, filename: JsString)
    requires WellBehaved(o)
    ensures t <= EachOutcome(o, t, v, req, filename).trace
  {
    var (t1, handle) := EnsureDb(o, t, v, filename);
    assert t <= t1;
    if handle.Ok? {
      var sql := if req.sql.Some? then req.sql.value else [];
      EachOfRows(o, t1, HandleNumber(handle.value), sql, req.params);
      PrepareOfOk(o, t1, HandleNumber(handle.value), sql, req.params);
    }
  }

  /** An exec that did not throw posts one result list whose every entry
      has at least one row. */
  lemma ExecOutcomeResults(o: Oracle, t: Trace, v: DbView, req: Request, filename: JsString)
    requires WellBehaved(o)
    ensures var e := ExecOutcome(o, t, v, req, filename);
      e.thrown.None? ==>
        |e.posted| == 1 && e.posted[0].Results? &&
        forall i :: 0 <= i < |e.posted[0].results| ==> 0 < |e.posted[0].results[i].values|
  {
    var (t1, handle) := EnsureDb(o, t, v, filename);
    if handle.Ok? && !Falsy(req.sql) && handle.value.Some? && handle.value.value != 0 {
      var h := handle.value.value;
      ExecOfResults(o, t1, h, req.sql.value, req.params, false, []);
      assert ExecScript(o, t1, handle.value, req.sql.value, req.params) == ExecOf(o, t1, h, req.sql.value, req.params, false, []);
    }
  }

  /** createDb that succeeds on a live database closed it before opening
      the new one. */
  lemma CreateOfClosesFirst(o: Oracle, t: Trace, v: DbView, image: Option<Image>, filename: JsString)
    requires v.Db? && v.handle.Some?
    ensures var (t', made) := CreateOf(o, t, v, image, filename);
      made.Ok? ==> exists i, j :: |t| <= i < j < |t'| && t'[i] == CloseDb(v.handle.value) && t'[j] == Open(filename)
  {
    var (t1, c) := CloseOf(o, t, v.handle.value, v.filename, v.keys);
    var (t', made) := CreateOf(o, t, v, image, filename);
    if made.Ok? {
      var i := |t| + |Finalizes(Ascending(v.keys))|;
      var w := ImageCalls(filename, image);
      var j := |t1| + |w|;
      assert t'[i] == CloseDb(v.handle.value);
      assert t'[j] == Open(filename);
    }
  }

  /** The worker's global state. */
  class Worker {
    const engine: Engine
    /** The message of the Error the module promise rejected with, when
        loading the module aborted. */
    const loadError: Option<string>
    var db: Database?
    var outbox: seq<Reply>

    /** The database, when there is one, is sound and runs on the engine. */
    ghost predicate Valid()
      reads this, db, if db != null then db.statements.Values else {}
    {
      db != null ==> db.Valid() && db.engine == engine
    }

    /** The script's start: `db = null`, nothing posted yet. */
    constructor (engine: Engine, loadError: Option<string>)
      ensures this.engine == engine && this.loadError == loadError
      ensures db == null && outbox == [] && Valid()
    {
      this.engine := engine;
      this.loadError := loadError;
      db := null;
      outbox := [];
    }

    /** The handlers' view of `db`. */
    ghost function View(): DbView
      reads this, db
    {
      if db == null then NoDb else Db(db.handle, db.filename, db.statements.Keys)
    }

    /** createDb: close the current database, if any, then open a new one on
        `filename` (the source draws it at random). If either throws, the
        worker keeps the database it had. */
    method CreateDb(image: Option<Image>, filename: JsString) returns (r: Result<(), Thrown>)
      requires Valid()
      modifies this, engine, db, if db != null then db.statements.Values else {}
      ensures Valid() && outbox == old(outbox)
      ensures var (t, made) := old(CreateOf(engine.oracle, engine.trace, View(), image, filename));
        engine.trace == t && r.Ok? == made.Ok? &&
        (r.Err? ==> r.error == made.error && db == old(db)) &&
        (r.Ok? ==> fresh(db) && db.handle == Some(made.value) && db.filename == filename && db.statements == map[])
      ensures r.Ok? && old(db) != null ==> old(db).handle == None
    {
      if db != null {
        var c := db.Close();
        if c.Err? {
          return Err(c.error);
        }
      }
      var n := NewDatabase(engine, filename, image);
      if n.Err? {
        return Err(n.error);
      }
      db := n.value;
      return Ok(());
    }

    /** The "open" case: replace the database by one opened on the buffer's
        bytes, when there are any. */
    method HandleOpen(req: Request, filename: JsString) returns (thrown: Option<Thrown>)
      requires Valid()
      modifies this, engine, db, if db != null then db.statements.Values else {}
      ensures Valid()
      ensures var e := old(OpenOutcome(engine.oracle, engine.trace, View(), req, filename));
        engine.trace == e.trace && outbox == old(outbox) + e.posted && thrown == e.thrown
      ensures thrown.None? ==> db != null && fresh(db) && db.filename == filename && db.statements == map[]
      ensures thrown.None? && old(db) != null ==> old(db).handle == None
      ensures thrown.Some? ==> db == old(db)
    {
      var c := CreateDb(req.buffer, filename);
      if c.Err? {
        return Some(c.error);
      }
      outbox := outbox + [Ready(req.id)];
      return None;
    }

    /** `if (db === null) createDb()`, as exec and each begin. */
    method EnsureDatabase(filename: JsString) returns (r: Result<(), Thrown>)
      requires Valid()
      modifies this, engine, db, if db != null then db.statements.Values else {}
      ensures Valid() && outbox == old(outbox)
      ensures var (t, handle) := old(EnsureDb(engine.oracle, engine.trace, View(), filename));
        engine.trace == t && r.Ok? == handle.Ok? &&
        (r.Err? ==> r.error == handle.error && db == old(db)) &&
        (r.Ok? ==> db != null && db.handle == handle.value)
      ensures old(db) != null ==> db == old(db) && r.Ok? && db.statements == old(db.statements)
      ensures old(db) == null && r.Ok? ==> fresh(db)
    {
      if db == null {
        r := CreateDb(None, filename);
      } else {
        r := Ok(());
      }
    }

    /** The "exec" case: open a database only when there is none, refuse a
        missing query, then run the script. */
    method HandleExec(req: Request, filename: JsString) returns (thrown: Option<Thrown>)
      requires Valid() && WellBehaved(engine.oracle)
      modifies this, engine, db, if db != null then db.statements.Values else {}
      ensures Valid()
      ensures var e := old(ExecOutcome(engine.oracle, engine.trace, View(), req, filename));
        engine.trace == e.trace && outbox == old(outbox) + e.posted && thrown == e.thrown
      ensures old(db) != null ==> db == old(db)
      ensures old(db) == null ==> db == null || fresh(db)
    {
      var c := EnsureDatabase(filename);
      if c.Err? {
        return Some(c.error);
      }
      if Falsy(req.sql) {
        return Some(ThrownString(MissingQuery));
      }
      var r := db.Exec(req.sql.value, req.params);
      if r.Err? {
        return Some(r.error);
      }
      outbox := outbox + [Results(req.id, r.value)];
      return None;
    }

    /** each on the database there is, posting its row replies and then
        the "finished" reply. */
    method PostEach(req: Request) returns (thrown: Option<Thrown>)
      requires Valid() && WellBehaved(engine.oracle) && db != null
      modifies this, engine, db, db.statements.Values
      ensures Valid() && db == old(db)
      ensures var sql := if req.sql.Some? then req.sql.value else [];
        var (t, rows, r) := old(EachOf(engine.oracle, engine.trace, db.Raw(), sql, req.params));
        engine.trace == t && outbox == old(outbox) + RowReplies(req.id, rows) + (if r.Ok? then [Finished(req.id)] else []) &&
        thrown == (if r.Err? then Some(r.error) else None)
    {
      var sql := if req.sql.Some? then req.sql.value else [];
      var rows, r := db.Each(sql, req.params);
      outbox := outbox + RowReplies(req.id, rows);
      if r.Err? {
        return Some(r.error);
      }
      outbox := outbox + [Finished(req.id)];
      return None;
    }

    /** The "each" case: open a database only when there is none, post a row
        reply for every row, then one "finished" reply. A missing query is
        handed over as empty text. */
    method HandleEach(req: Request, filename: JsString) returns (thrown: Option<Thrown>)
      requires Valid() && WellBehaved(engine.oracle)
      modifies this, engine, db, if db != null then db.statements.Values else {}
      ensures Valid()
      ensures var e := old(EachOutcome(engine.oracle, engine.trace, View(), req, filename));
        engine.trace == e.trace && outbox == old(outbox) + e.posted && thrown == e.thrown
      ensures old(db) != null ==> db == old(db)
      ensures old(db) == null ==> db == null || fresh(db)
    {
      ghost var o := engine.oracle;
      ghost var ens := EnsureDb(o, engine.trace, View(), filename);
      ghost var e := EachOutcome(o, engine.trace, View(), req, filename);
      var c := EnsureDatabase(filename);
      if c.Err? {
        return Some(c.error);
      }
      assert ens.1.Ok? && db.Raw() == HandleNumber(ens.1.value) && engine.trace == ens.0;
      thrown := PostEach(req);
    }

    /** The "export" case: fails while `db` is null; otherwise the
        database's bytes, the database being reopened. */
    method HandleExport(req: Request) returns (thrown: Option<Thrown>)
      requires Valid()
      modifies this, engine, db, if db != null then db.statements.Values else {}
      ensures Valid() && db == old(db)
      ensures var e := old(ExportOutcome(engine.oracle, engine.trace, View(), req));
        engine.trace == e.trace && outbox == old(outbox) + e.posted && thrown == e.thrown
    {
      if db == null {
        return Some(ThrownError(NullExport));
      }
      var r := db.Export();
      if r.Err? {
        return Some(r.error);
      }
      outbox := outbox + [Exported(req.id, r.value)];
      return None;
    }

    /** The "close" case: close the database if there is one. `db` keeps
        the closed object, so a later exec or each does not open a new one. */
    method HandleClose(req: Request) returns (thrown: Option<Thrown>)
      requires Valid()
      modifies this, engine, db, if db != null then db.statements.Values else {}
      ensures Valid() && db == old(db)
      ensures var e := old(CloseOutcome(engine.oracle, engine.trace, View(), req));
        engine.trace == e.trace && outbox == old(outbox) + e.posted && thrown == e.thrown
      ensures thrown.None? && db != null ==> db.handle == None
      ensures db != null ==> db.statements == map[] || db.statements == old(db.statements)
    {
      if db != null {
        var c := db.Close();
        if c.Err? {
          return Some(c.error);
        }
      }
      outbox := outbox + [Closed(req.id)];
      return None;
    }

    /** The switch of onModuleReady: the case for the message's action, or
        "Invalid action : …" for any other. */
    method Dispatch(req: Request, filename: JsString) returns (thrown: Option<Thrown>)
      requires Valid() && WellBehaved(engine.oracle) && loadError.None?
      modifies this, engine, db, if db != null then db.statements.Values else {}
      ensures Valid()
      ensures var e := old(Respond(engine.oracle, engine.trace, View(), loadError, req, filename));
        engine.trace == e.trace && outbox == old(outbox) + e.posted && thrown == e.thrown
      ensures !Known(req.action) ==> db == old(db)
      ensures req.action == Some(Str("exec")) || req.action == Some(Str("each")) ==>
        (old(db) != null ==> db == old(db)) && (old(db) == null ==> db == null || fresh(db))
      ensures req.action == Some(Str("export")) || req.action == Some(Str("close")) ==> db == old(db)
      ensures req.action == Some(Str("close")) && db != null ==>
        (db.statements == map[] || db.statements == old(db.statements)) && (thrown.None? ==> db.handle == None)
      ensures req.action == Some(Str("open")) ==>
        db == old(db) || (fresh(db) && (old(db) != null ==> old(db).handle == None))
    {
      if req.action == Some(Str("open")) {
        thrown := HandleOpen(req, filename);
      } else if req.action == Some(Str("exec")) {
        thrown := HandleExec(req, filename);
      } else if req.action == Some(Str("each")) {
        thrown := HandleEach(req, filename);
      } else if req.action == Some(Str("export")) {
        thrown := HandleExport(req);
      } else if req.action == Some(Str("close")) {
        thrown := HandleClose(req);
      } else {
        thrown := Some(ThrownError(InvalidAction + ActionText(req.action)));
      }
    }

    /** Handles a message the way `onmessage` chains onModuleReady and
        onError. Without data both handlers throw on reading it and nothing
        is posted; when the module failed to load, every message gets that
        failure. */
    method OnMessage(data: Option<Request>, filename: JsString)
      requires Valid() && WellBehaved(engine.oracle)
      modifies this, engine, db, if db != null then db.statements.Values else {}
      ensures Valid()
      ensures data.None? ==> outbox == old(outbox) && db == old(db) && engine.trace == old(engine.trace)
      ensures data.Some? ==>
        var e := old(Respond(engine.oracle, engine.trace, View(), loadError, data.value, filename));
        engine.trace == e.trace && outbox == old(outbox) + Posted(data.value.id, e)
      ensures data.Some? && (loadError.Some? || !Known(data.value.action)) ==> db == old(db)
      ensures data.Some? && loadError.None? && (data.value.action == Some(Str("exec")) || data.value.action == Some(Str("each"))) ==>
        (old(db) != null ==> db == old(db)) && (old(db) == null ==> db == null || fresh(db))
      ensures data.Some? && loadError.None? && (data.value.action == Some(Str("export")) || data.value.action == Some(Str("close"))) ==> db == old(db)
      ensures data.Some? && loadError.None? && data.value.action == Some(Str("close")) && db != null ==>
        (db.statements == map[] || db.statements == old(db.statements)) &&
        (outbox == old(outbox) + [Closed(data.value.id)] ==> db.handle == None)
      ensures data.Some? && loadError.None? && data.value.action == Some(Str("open")) ==>
        db == old(db) || (fresh(db) && (old(db) != null ==> old(db).handle == None))
    {
      if data.None? {
        return;
      }
      var req := data.value;
      if loadError.Some? {
        outbox := outbox + [Failure(req.id, loadError)];
        return;
      }
      var thrown := Dispatch(req, filename);
      ghost var before := outbox;
      if thrown.Some? {
        var replies := ErrorReplies(req.id, thrown.value);
        outbox := outbox + replies;
        assert replies != [] ==> outbox[|before|] == replies[0];
      }
    }

    /** A "close" then an "exec" on the same worker: once the close has gone
        through, the exec finds the closed database, makes no engine call,
        and its failure carries no message. */
    method CloseThenExec(closeId: Id, execId: Id, sql: JsString, filename: JsString) returns (ghost afterClose: seq<Reply>)
      requires Valid() && WellBehaved(engine.oracle) && loadError.None? && db != null && sql != []
      modifies this, engine, db, db.statements.Values
      ensures db == old(db)
      ensures old(outbox) <= afterClose <= outbox
      ensures afterClose == old(outbox) + [Closed(closeId)] ==> outbox == afterClose + [Failure(execId, None)]
      ensures old(db.handle).None? ==> afterClose == old(outbox) + [Closed(closeId)]
    {
      OnMessage(Some(Request(Some(Str("close")), closeId, None, None, None)), filename);
      afterClose := outbox;
      OnMessage(Some(Request(Some(Str("exec")), execId, Some(sql), None, None)), filename);
    }
  }
}
