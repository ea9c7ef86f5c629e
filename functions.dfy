/** The client side of vacuum scheduling in
    temboardagent/plugins/maintenance/functions.py: the task status label,
    the deduplication id and start time of a scheduled vacuum, the VACUUM
    statement a worker runs, and the listing and cancelling of scheduled
    vacuums through the task manager.

    The task manager, the Postgres connection and MD5 are outside the
    model.  Each call into them is a parameter: the number of rows the
    table-existence query returned, the reply the task manager gives (or
    `Raised` when the call raises), whether executing the statement raises,
    and a hash function whose digests are 32 lower-case hex digits. */
module MaintenanceFunctions {
  import opened Wrappers
  import opened Text
  import UtcTime

  /** The exceptions this code raises: `HTTPError(code, message)`,
      `UserError(message)`, and the `ValueError` Python 2's `strftime`
      raises on a datetime of year `year` before 1900 ("year=... is before
      1900; the datetime strftime() methods require year >= 1900"). */
  datatype Error = HttpError(code: int, message: string) | UserError(message: string)
                 | YearBefore1900(year: int)

  // ---------------------------------------------------------------------
  // task_status_label

  const Labels: seq<string> :=
    ["todo", "scheduled", "queued", "doing", "done", "failed", "canceled", "aborted", "abort"]

  /** Python's `int.bit_length()`: the number of bits of `|n|`. */
  function BitLength(n: int): nat
    decreases if n < 0 then -n else n, if n < 0 then 1 else 0
  {
    if n < 0 then BitLength(-n) else if n == 0 then 0 else 1 + BitLength(n / 2)
  }

  function Pow2(k: nat): (p: nat)
    ensures p >= 1
  {
    if k == 0 then 1 else 2 * Pow2(k - 1)
  }

  /** Python list indexing `xs[p]`, negative indices counting from the end;
      `None` is the `IndexError`. */
  function PyIndex<T>(xs: seq<T>, p: int): (r: Option<T>)
    ensures r.None? <==> (p >= |xs| || p < -|xs|)
  {
    if 0 <= p < |xs| then Some(xs[p])
    else if -|xs| <= p < 0 then Some(xs[|xs| + p])
    else None
  }

  /** `task_status_label(status)`: the label of the highest set bit. */
  function TaskStatusLabel(status: int): (name: string)
    ensures name == "unknown" || name in Labels
  {
    match PyIndex(Labels, BitLength(status) - 1)
    case Some(l) => l
    case None => "unknown"
  }

  /** A number in [2^k, 2^(k+1)) has k + 1 bits. */
  lemma {:induction false} BitLengthOfRange(n: int, k: nat)
    requires Pow2(k) <= n < Pow2(k + 1)
    ensures BitLength(n) == k + 1
  {
    if k > 0 {
      BitLengthOfRange(n / 2, k - 1);
    }
  }

  /** A number of at least 2^k has more than k bits. */
  lemma {:induction false} BitLengthAtLeast(n: int, k: nat)
    requires n >= Pow2(k)
    ensures BitLength(n) > k
  {
    if k > 0 {
      BitLengthAtLeast(n / 2, k - 1);
    }
  }

  /** A number below 2^k has at most k bits. */
  lemma {:induction false} BitLengthBelow(n: nat, k: nat)
    requires n < Pow2(k)
    ensures BitLength(n) <= k
  {
    if n > 0 {
      BitLengthBelow(n / 2, k - 1);
    }
  }

  /** The label depends only on the highest set bit: bit k gives the k-th
      label. */
  lemma LabelOfHighestBit(status: int, k: nat)
    requires k < |Labels|
    requires Pow2(k) <= status < Pow2(k + 1)
    ensures TaskStatusLabel(status) == Labels[k]
  {
    BitLengthOfRange(status, k);
  }

  /** From 512 on (nine bits and more) the label is "unknown". */
  lemma LabelUnknownFrom512(status: int)
    requires status >= 512
    ensures TaskStatusLabel(status) == "unknown"
  {
    assert Pow2(9) == 512;
    BitLengthAtLeast(status, 9);
  }

  /** A non-negative status is "unknown" exactly when it has more than nine
      bits. */
  lemma LabelUnknownIff(status: nat)
    ensures TaskStatusLabel(status) == "unknown" <==> status >= 512
  {
    if status >= 512 {
      LabelUnknownFrom512(status);
    } else {
      assert Pow2(9) == 512;
      BitLengthBelow(status, 9);
    }
  }

  /** Status 0 has bit length 0; index -1 wraps to the last label. */
  lemma LabelOfZero()
    ensures TaskStatusLabel(0) == "abort"
  {
  }

  // ---------------------------------------------------------------------
  // schedule_vacuum: deduplication id and start time

  /** An MD5 hex digest: 32 lower-case hexadecimal digits. */
  type HexDigest = s: string | |s| == 32 && AllLowerHex(s)
    witness "00000000000000000000000000000000"

  /** `md5(text).hexdigest()`; the UTF-8 encoding in between is one to one
      and is left implicit. */
  type Md5 = string -> HexDigest

  /** The text hashed for the id: `"{database}:{schema}:{table}:{datetime}"`. */
  function DedupKey(database: string, schema: string, table: string, datetimeutc: string): string {
    database + ":" + schema + ":" + table + ":" + datetimeutc
  }

  /** `m.hexdigest()[:8]`: the task id of a scheduled vacuum. */
  function TaskId(md5: Md5, database: string, schema: string, table: string, datetimeutc: string): (id: string)
    ensures |id| == 8 && AllLowerHex(id)
  {
    md5(DedupKey(database, schema, table, datetimeutc))[..8]
  }

  /** The first position of `c` in `s`. */
  function IndexOf(s: string, c: char): (k: nat)
    requires c in s
    ensures k < |s| && s[k] == c && c !in s[..k]
  {
    if s[0] == c then 0 else 1 + IndexOf(s[1..], c)
  }

  /** In `p + [c] + rest` with `c` not in `p`, the first `c` ends `p`. */
  lemma {:induction false} IndexOfAfter(p: string, c: char, rest: string)
    requires c !in p
    ensures c in p + [c] + rest && IndexOf(p + [c] + rest, c) == |p|
  {
    var s := p + [c] + rest;
    assert s[|p|] == c;
    if p != [] {
      assert s[1..] == p[1..] + [c] + rest;
      IndexOfAfter(p[1..], c, rest);
    }
  }

  /** Cutting at the first colon of a colon-free prefix is unambiguous. */
  lemma SplitAtColon(a: string, r: string, a': string, r': string)
    requires ':' !in a && ':' !in a'
    requires a + ":" + r == a' + ":" + r'
    ensures a == a' && r == r'
  {
    var s := a + ":" + r;
    IndexOfAfter(a, ':', r);
    IndexOfAfter(a', ':', r');
    assert a == s[..|a|] == a';
    assert r == s[|a| + 1..] == r';
  }

  /** When the names contain no colon, different (database, schema, table,
      datetime) tuples hash different texts: the key loses nothing. */
  lemma DedupKeyInjective(d: string, s: string, t: string, dt: string,
                          d': string, s': string, t': string, dt': string)
    requires ':' !in d && ':' !in s && ':' !in t
    requires ':' !in d' && ':' !in s' && ':' !in t'
    requires DedupKey(d, s, t, dt) == DedupKey(d', s', t', dt')
    ensures d == d' && s == s' && t == t' && dt == dt'
  {
    assert DedupKey(d, s, t, dt) == d + ":" + (s + ":" + t + ":" + dt);
    assert DedupKey(d', s', t', dt') == d' + ":" + (s' + ":" + t' + ":" + dt');
    SplitAtColon(d, s + ":" + t + ":" + dt, d', s' + ":" + t' + ":" + dt');
    assert s + ":" + t + ":" + dt == s + ":" + (t + ":" + dt);
    assert s' + ":" + t' + ":" + dt' == s' + ":" + (t' + ":" + dt');
    SplitAtColon(s, t + ":" + dt, s', t' + ":" + dt');
    SplitAtColon(t, dt, t', dt');
  }

  /** A colon inside a name makes two different tables share a key, and so
      an id. */
  lemma DedupKeyCollision()
    ensures DedupKey("a:b", "c", "t", "2020-01-01T00:00:00Z") == DedupKey("a", "b:c", "t", "2020-01-01T00:00:00Z")
  {
  }

  /** The options given to the vacuum worker.  `config` is
      `pickle(app.config)`, opaque here. */
  datatype VacuumOptions = VacuumOptions(
    config: seq<bv8>, dbname: string, schema: string, table: string, mode: string)

  /** The arguments of `taskmanager.schedule_task('vacuum_worker', ...)`. */
  datatype ScheduleRequest = ScheduleRequest(
    workerName: string, id: string, options: VacuumOptions,
    start: UtcTime.DateTime, listenerAddr: string, expire: int)

  /** `os.path.join(a, b)`. */
  function PathJoin(a: string, b: string): string {
    if |b| > 0 && b[0] == '/' then b
    else if a == [] || a[|a| - 1] == '/' then a + b
    else a + "/" + b
  }

  /** The task manager's socket, `os.path.join(home, '.tm.socket')`. */
  function SocketPath(home: string): string {
    PathJoin(home, ".tm.socket")
  }

  /** The request `schedule_vacuum` builds; `None` when `strptime` or the
      microsecond addition raises, which `schedule_vacuum` turns into a 500.
      The start is the parsed time plus exactly one microsecond. */
  function VacuumScheduleRequest(
    database: string, schema: string, table: string, mode: string, datetimeutc: string,
    home: string, config: seq<bv8>, md5: Md5): (r: Option<ScheduleRequest>)
    ensures r.Some? <==> UtcTime.Parse(datetimeutc).Some?
    ensures r.Some? ==>
      && r.value.workerName == "vacuum_worker"
      && r.value.id == TaskId(md5, database, schema, table, datetimeutc)
      && r.value.options == VacuumOptions(config, database, schema, table, mode)
      && UtcTime.Valid(r.value.start)
      && UtcTime.Before(UtcTime.Parse(datetimeutc).value, r.value.start)
      && r.value.start == UtcTime.Parse(datetimeutc).value.(microsecond := 1)
      && r.value.listenerAddr == SocketPath(home)
      && r.value.expire == 0
  {
    match UtcTime.Parse(datetimeutc)
    case None => None
    case Some(dt) =>
      match UtcTime.AddMicrosecond(dt)
      case None => None
      case Some(start) =>
        Some(ScheduleRequest("vacuum_worker", TaskId(md5, database, schema, table, datetimeutc),
                             VacuumOptions(config, database, schema, table, mode),
                             start, SocketPath(home), 0))
  }

  /** Listing shows the start time with `%Y-%m-%dT%H:%M:%SZ`, which gives
      the requested datetime string back (with a `t` or `z` that `strptime`
      read written upper-case), unless the year is before 1900, where
      Python 2's `strftime` raises instead. */
  lemma ScheduledStartFormatsBack(
    database: string, schema: string, table: string, mode: string, datetimeutc: string,
    home: string, config: seq<bv8>, md5: Md5)
    requires VacuumScheduleRequest(database, schema, table, mode, datetimeutc, home, config, md5).Some?
    ensures var start := VacuumScheduleRequest(database, schema, table, mode, datetimeutc, home, config, md5).value.start;
      && UtcTime.Format(start) == Upper(datetimeutc)
      && (UtcTime.IsTimestampShape(datetimeutc) ==> UtcTime.Format(start) == datetimeutc)
      && (UtcTime.Strftime(start).Some? <==> start.year >= 1900)
      && (UtcTime.Strftime(start).Some? ==> UtcTime.Strftime(start).value == Upper(datetimeutc))
  {
    var dt := UtcTime.Parse(datetimeutc).value;
    UtcTime.FormatParse(datetimeutc);
    UtcTime.FormatAddMicrosecond(dt);
  }

  /** A datetime before 1900 is accepted for scheduling: the task then
      starts in that year, which Python 2's `strftime` cannot write. */
  lemma EarlyStartSchedules(database: string, schema: string, table: string, mode: string,
                            home: string, config: seq<bv8>, md5: Md5, dt: UtcTime.DateTime)
    requires UtcTime.Valid(dt) && dt.microsecond == 0 && dt.year < 1900
    ensures var req := VacuumScheduleRequest(database, schema, table, mode, UtcTime.Format(dt), home, config, md5);
      && req.Some?
      && req.value.start == dt.(microsecond := 1)
      && UtcTime.Strftime(req.value.start).None?
  {
    UtcTime.ParseFormat(dt);
  }

  /** The id does not depend on the mode: scheduling the same table at the
      same time in two modes gives the same id. */
  lemma ScheduleIdIgnoresMode(
    database: string, schema: string, table: string, mode1: string, mode2: string,
    datetimeutc: string, home: string, config: seq<bv8>, md5: Md5)
    requires UtcTime.Parse(datetimeutc).Some?
    ensures VacuumScheduleRequest(database, schema, table, mode1, datetimeutc, home, config, md5).value.id
      == VacuumScheduleRequest(database, schema, table, mode2, datetimeutc, home, config, md5).value.id
  {
  }

  // ---------------------------------------------------------------------
  // Messages to the task manager

  /** The outcome of a call into the task manager: a value, or an
      exception. */
  datatype Sent<T> = Raised | Returned(value: T)

  /** Message types; their numeric values belong to the task manager. */
  datatype MessageType = TaskListType | TaskCancelType | ErrorType | OtherType(code: int)

  /** What `schedule_task` answers: `res.type` and `res.content`. */
  datatype Response<C> = Response(msgType: MessageType, content: C)

  /** A message content: the empty string of a list request, or the
      `dict(task_id=id)` of a cancel request. */
  datatype Payload = EmptyPayload | CancelPayload(taskId: string)

  datatype Message = Message(msgType: MessageType, payload: Payload)

  /** A message sent to the socket at `address`. */
  datatype Envelope = Envelope(address: string, message: Message)

  /** `schedule_vacuum(conn, database, schema, table, mode, datetimeutc, app)`.
      `tableRows` is the number of rows of the table-existence query and
      `scheduleTask` the task manager's answer to a request. */
  function ScheduleVacuum<C>(
    tableRows: nat, database: string, schema: string, table: string, mode: string,
    datetimeutc: string, home: string, config: seq<bv8>, md5: Md5,
    scheduleTask: ScheduleRequest -> Sent<Response<C>>): (r: Result<C, Error>)
    ensures tableRows == 0 ==> r == Err(HttpError(404, "Table " + schema + "." + table + " not found"))
    ensures r.Err? && tableRows > 0 ==> r == Err(HttpError(500, "Unable to schedule vacuum"))
    ensures r.Ok? <==>
      && tableRows > 0
      && var req := VacuumScheduleRequest(database, schema, table, mode, datetimeutc, home, config, md5);
      && req.Some?
      && scheduleTask(req.value).Returned?
      && scheduleTask(req.value).value.msgType != ErrorType
    ensures r.Ok? ==>
      var req := VacuumScheduleRequest(database, schema, table, mode, datetimeutc, home, config, md5);
      r.value == scheduleTask(req.value).value.content
  {
    if tableRows == 0 then Err(HttpError(404, "Table " + schema + "." + table + " not found"))
    else
      match VacuumScheduleRequest(database, schema, table, mode, datetimeutc, home, config, md5)
      case None => Err(HttpError(500, "Unable to schedule vacuum"))
      case Some(req) =>
        match scheduleTask(req)
        case Raised => Err(HttpError(500, "Unable to schedule vacuum"))
        case Returned(res) =>
          if res.msgType == ErrorType then Err(HttpError(500, "Unable to schedule vacuum"))
          else Ok(res.content)
  }

  /** A missing table or an unparsable datetime is reported before the task
      manager is asked: the outcome is the same whatever it would answer. */
  lemma ScheduleVacuumNoCallOnEarlyError<C>(
    tableRows: nat, database: string, schema: string, table: string, mode: string,
    datetimeutc: string, home: string, config: seq<bv8>, md5: Md5,
    scheduleTask1: ScheduleRequest -> Sent<Response<C>>,
    scheduleTask2: ScheduleRequest -> Sent<Response<C>>)
    requires tableRows == 0 || UtcTime.Parse(datetimeutc).None?
    ensures ScheduleVacuum(tableRows, database, schema, table, mode, datetimeutc, home, config, md5, scheduleTask1)
      == ScheduleVacuum(tableRows, database, schema, table, mode, datetimeutc, home, config, md5, scheduleTask2)
    ensures ScheduleVacuum(tableRows, database, schema, table, mode, datetimeutc, home, config, md5, scheduleTask1).Err?
  {
  }

  // ---------------------------------------------------------------------
  // vacuum: the statement a vacuum worker runs

  /** The statement `vacuum` builds: `"VACUUM"`, then `" (MODE) "` when a
      mode is given, then `" schema.table"`. */
  function VacuumStatement(schema: string, table: string, mode: string): (q: string)
    ensures |q| >= 8 + |schema| + |table| && q[..6] == "VACUUM"
    ensures q[|q| - |schema| - |table| - 1..] == schema + "." + table
    ensures mode != "" ==> q[6..8] == " ("
  {
    var option := if mode != "" then " (" + Upper(mode) + ") " else "";
    var q := "VACUUM" + option + " " + schema + "." + table;
    assert q == ("VACUUM" + option + " ") + (schema + "." + table);
    q
  }

  /** Reads a statement of the shape above back into its option list (if
      any) and its target. */
  function ParseVacuumStatement(q: string): Option<(Option<string>, string)> {
    if |q| < 7 || q[..6] != "VACUUM" then None
    else if |q| >= 8 && q[6..8] == " (" then
      var rest := q[8..];
      if ')' !in rest then None
      else
        var k := IndexOf(rest, ')');
        if |rest| >= k + 3 && rest[k..k + 3] == ")  " then Some((Some(rest[..k]), rest[k + 3..]))
        else None
    else if q[6] == ' ' then Some((None, q[7..]))
    else None
  }

  /** Without a mode the statement is `VACUUM schema.table`. */
  lemma ParseVacuumStatementNoMode(schema: string, table: string)
    requires schema == [] || schema[0] != '('
    ensures ParseVacuumStatement(VacuumStatement(schema, table, "")) == Some((None, schema + "." + table))
  {
    var q := VacuumStatement(schema, table, "");
    var target := schema + "." + table;
    assert q == "VACUUM" + " " + target;
    assert q[..6] == "VACUUM";
    assert q[6] == ' ' && q[7] == target[0] && q[7..] == target;
  }

  /** The text after `VACUUM (`: the options up to the first `)`, then two
      spaces and the target. */
  lemma OptionClause(u: string, target: string)
    requires ')' !in u
    ensures var rest := u + ")  " + target;
      && ')' in rest && IndexOf(rest, ')') == |u|
      && |rest| >= |u| + 3 && rest[|u|..|u| + 3] == ")  "
      && rest[..|u|] == u && rest[|u| + 3..] == target
  {
    var rest := u + ")  " + target;
    assert rest == u + [')'] + ("  " + target);
    IndexOfAfter(u, ')', "  " + target);
    assert rest[|u|..|u| + 3] == ")  ";
  }

  /** With a mode, the statement is `VACUUM (` followed by the option
      clause. */
  lemma StatementWithModeShape(schema: string, table: string, mode: string)
    requires mode != ""
    ensures VacuumStatement(schema, table, mode) == "VACUUM (" + (Upper(mode) + ")  " + (schema + "." + table))
  {
    var u, target := Upper(mode), schema + "." + table;
    calc {
      VacuumStatement(schema, table, mode);
      "VACUUM" + (" (" + u + ") ") + " " + schema + "." + table;
      { assert "VACUUM" + (" (" + u + ") ") + " " + schema + "." + table
          == "VACUUM" + " (" + u + ") " + " " + target; }
      "VACUUM (" + (u + ")  " + target);
    }
  }

  /** The fixed slices of a text that starts `VACUUM (`. */
  lemma OpenOptionSlices(rest: string)
    ensures var q := "VACUUM (" + rest;
      |q| >= 8 && q[..6] == "VACUUM" && q[6..8] == " (" && q[8..] == rest
  {
  }

  /** With a mode the statement is `VACUUM (MODE)  schema.table`. */
  lemma ParseVacuumStatementWithMode(schema: string, table: string, mode: string)
    requires ')' !in mode && mode != ""
    ensures ParseVacuumStatement(VacuumStatement(schema, table, mode)) ==
      Some((Some(Upper(mode)), schema + "." + table))
  {
    var target := schema + "." + table;
    var u := Upper(mode);
    assert ')' !in u;
    var rest := u + ")  " + target;
    StatementWithModeShape(schema, table, mode);
    OpenOptionSlices(rest);
    OptionClause(u, target);
  }

  /** The statement is unambiguous: the upper-cased mode and the target
      `schema.table` can be read back from it (for a mode without `)` and a
      schema that does not start with `(`). */
  lemma ParseVacuumStatementRoundTrip(schema: string, table: string, mode: string)
    requires ')' !in mode
    requires schema == [] || schema[0] != '('
    ensures ParseVacuumStatement(VacuumStatement(schema, table, mode)) ==
      Some((if mode == "" then None else Some(Upper(mode)), schema + "." + table))
  {
    if mode == "" {
      ParseVacuumStatementNoMode(schema, table);
    } else {
      ParseVacuumStatementWithMode(schema, table, mode);
    }
  }

  /** `vacuum(conn, dbname, schema, table, mode)`.  `tableRows` is the number
      of rows of the table-existence query and `executeRaises` tells whether
      executing a statement raises a database error.  `executed` lists the
      statements sent after the existence check. */
  method Vacuum(tableRows: nat, dbname: string, schema: string, table: string, mode: string,
                executeRaises: string -> bool)
    returns (r: Result<(), Error>, executed: seq<string>)
    ensures tableRows == 0 ==>
      r == Err(UserError("Table " + schema + "." + table + " not found")) && executed == []
    ensures tableRows > 0 ==> executed == [VacuumStatement(schema, table, mode)]
    ensures tableRows > 0 ==>
      r == if executeRaises(VacuumStatement(schema, table, mode))
           then Err(UserError("Unable to run vacuum " + mode + " on " + schema + "." + table))
           else Ok(())
  {
    if tableRows == 0 {
      return Err(UserError("Table " + schema + "." + table + " not found")), [];
    }
    var q := "VACUUM";
    q := q + (if mode != "" then " (" + Upper(mode) + ") " else "");
    q := q + " " + schema + "." + table;
    executed := [q];
    if executeRaises(q) {
      r := Err(UserError("Unable to run vacuum " + mode + " on " + schema + "." + table));
    } else {
      r := Ok(());
    }
  }

  // ---------------------------------------------------------------------
  // list_scheduled_vacuum

  /** A task as the task manager lists it.  Only the string entries of its
      options matter here. */
  datatype Task = Task(
    id: string, workerName: string, options: map<string, string>,
    startDatetime: UtcTime.ValidDateTime, status: int)

  /** One entry of the listing. */
  datatype VacuumEntry = VacuumEntry(
    id: string, dbname: Option<string>, schema: Option<string>, table: Option<string>,
    mode: Option<string>, datetime: string, status: string)

  /** The db/schema/table filter is on only when all three are given. */
  predicate FilterOn(kwargs: map<string, string>) {
    "dbname" in kwargs && "schema" in kwargs && "table" in kwargs
  }

  /** The tasks the listing keeps. */
  predicate IsListed(task: Task, kwargs: map<string, string>) {
    && task.workerName == "vacuum_worker"
    && (FilterOn(kwargs) ==>
          && Get(task.options, "dbname") == Some(kwargs["dbname"])
          && Get(task.options, "schema") == Some(kwargs["schema"])
          && Get(task.options, "table") == Some(kwargs["table"]))
  }

  /** The entry shown for a task. */
  function EntryOf(task: Task): (e: VacuumEntry)
    ensures e.id == task.id
  {
    VacuumEntry(task.id, Get(task.options, "dbname"), Get(task.options, "schema"),
                Get(task.options, "table"), Get(task.options, "mode"),
                UtcTime.Format(task.startDatetime), TaskStatusLabel(task.status))
  }

  /** What one task contributes to the listing. */
  function Listed(task: Task, kwargs: map<string, string>): seq<VacuumEntry> {
    if IsListed(task, kwargs) then [EntryOf(task)] else []
  }

  /** The listing of `tasks`: the entries of the kept tasks, in order. */
  function ScheduledVacuums(tasks: seq<Task>, kwargs: map<string, string>): (r: seq<VacuumEntry>)
    ensures |r| <= |tasks|
  {
    if tasks == [] then [] else Listed(tasks[0], kwargs) + ScheduledVacuums(tasks[1..], kwargs)
  }

  /** Regrouping a concatenation of three sequences. */
  lemma AppendAssociates<U>(x: seq<U>, y: seq<U>, z: seq<U>)
    ensures x + (y + z) == (x + y) + z
  {
  }

  /** Listing a concatenation lists each part in turn: the listing keeps
      the order of the tasks. */
  lemma {:induction false} ScheduledVacuumsConcat(a: seq<Task>, b: seq<Task>, kwargs: map<string, string>)
    ensures ScheduledVacuums(a + b, kwargs) == ScheduledVacuums(a, kwargs) + ScheduledVacuums(b, kwargs)
  {
    if a == [] {
      assert a + b == b;
    } else {
      var ab := a + b;
      assert ab != [] && ab[0] == a[0] && ab[1..] == a[1..] + b;
      var head, rest, right := Listed(a[0], kwargs), ScheduledVacuums(a[1..], kwargs), ScheduledVacuums(b, kwargs);
      ScheduledVacuumsConcat(a[1..], b, kwargs);
      assert ScheduledVacuums(ab, kwargs) == head + (rest + right);
      AppendAssociates(head, rest, right);
    }
  }

  /** Listing one more task adds its entry at the end, if it is kept. */
  lemma ScheduledVacuumsAppend(tasks: seq<Task>, t: Task, kwargs: map<string, string>)
    ensures ScheduledVacuums(tasks + [t], kwargs) ==
      ScheduledVacuums(tasks, kwargs) + (if IsListed(t, kwargs) then [EntryOf(t)] else [])
  {
    ScheduledVacuumsConcat(tasks, [t], kwargs);
    assert [t][1..] == [];
    assert ScheduledVacuums([t], kwargs) == Listed(t, kwargs) + [];
  }

  /** Every entry of the listing is shown by some kept task. */
  lemma {:induction false} ListedEntryHasTask(tasks: seq<Task>, kwargs: map<string, string>, k: nat)
    requires k < |ScheduledVacuums(tasks, kwargs)|
    ensures exists i :: 0 <= i < |tasks| && IsListed(tasks[i], kwargs)
                        && EntryOf(tasks[i]) == ScheduledVacuums(tasks, kwargs)[k]
  {
    var rest := tasks[1..];
    var head := Listed(tasks[0], kwargs);
    var tail := ScheduledVacuums(rest, kwargs);
    var out := ScheduledVacuums(tasks, kwargs);
    assert out == head + tail;
    if k < |head| {
      assert out[k] == EntryOf(tasks[0]);
      assert IsListed(tasks[0], kwargs);
    } else {
      assert out[k] == tail[k - |head|];
      ListedEntryHasTask(rest, kwargs, k - |head|);
      var j :| 0 <= j < |rest| && IsListed(rest[j], kwargs) && EntryOf(rest[j]) == tail[k - |head|];
      assert tasks[j + 1] == rest[j];
      assert IsListed(tasks[j + 1], kwargs) && EntryOf(tasks[j + 1]) == out[k];
    }
  }

  /** Every kept task shows its entry in the listing. */
  lemma {:induction false} KeptTaskIsListed(tasks: seq<Task>, kwargs: map<string, string>, i: nat)
    requires i < |tasks| && IsListed(tasks[i], kwargs)
    ensures EntryOf(tasks[i]) in ScheduledVacuums(tasks, kwargs)
  {
    var rest := tasks[1..];
    var tail := ScheduledVacuums(rest, kwargs);
    if i > 0 {
      assert rest[i - 1] == tasks[i];
      KeptTaskIsListed(rest, kwargs, i - 1);
      InTail(Listed(tasks[0], kwargs), tail, EntryOf(tasks[i]));
    }
  }

  /** An element of the tail of a concatenation is in the concatenation. */
  lemma InTail<U>(x: seq<U>, y: seq<U>, e: U)
    requires e in y
    ensures e in x + y
  {
    var k :| 0 <= k < |y| && y[k] == e;
    assert (x + y)[|x| + k] == e;
  }

  /** An entry is listed exactly when some kept task shows it. */
  lemma ScheduledVacuumsMembers(tasks: seq<Task>, kwargs: map<string, string>, e: VacuumEntry)
    ensures e in ScheduledVacuums(tasks, kwargs) <==>
      exists i :: 0 <= i < |tasks| && IsListed(tasks[i], kwargs) && EntryOf(tasks[i]) == e
  {
    if e in ScheduledVacuums(tasks, kwargs) {
      var k :| 0 <= k < |ScheduledVacuums(tasks, kwargs)| && ScheduledVacuums(tasks, kwargs)[k] == e;
      ListedEntryHasTask(tasks, kwargs, k);
    }
    if exists i :: 0 <= i < |tasks| && IsListed(tasks[i], kwargs) && EntryOf(tasks[i]) == e {
      var i :| 0 <= i < |tasks| && IsListed(tasks[i], kwargs) && EntryOf(tasks[i]) == e;
      KeptTaskIsListed(tasks, kwargs, i);
    }
  }

  /** With the filter on, every entry is of the requested table. */
  lemma {:induction false} ScheduledVacuumsFiltered(tasks: seq<Task>, kwargs: map<string, string>)
    requires FilterOn(kwargs)
    ensures forall e :: e in ScheduledVacuums(tasks, kwargs) ==>
      e.dbname == Some(kwargs["dbname"]) && e.schema == Some(kwargs["schema"]) &&
      e.table == Some(kwargs["table"])
  {
    if tasks != [] {
      ScheduledVacuumsFiltered(tasks[1..], kwargs);
    }
  }

  /** A kept task whose start Python 2's `strftime` cannot write. */
  predicate Unlistable(task: Task, kwargs: map<string, string>) {
    IsListed(task, kwargs) && task.startDatetime.year < 1900
  }

  /** The position of the first unlistable task, if any. */
  function FirstUnlistable(tasks: seq<Task>, kwargs: map<string, string>): (r: Option<nat>)
    ensures r.Some? ==> r.value < |tasks| && Unlistable(tasks[r.value], kwargs)
  {
    if tasks == [] then None
    else if Unlistable(tasks[0], kwargs) then Some(0)
    else
      match FirstUnlistable(tasks[1..], kwargs)
      case None => None
      case Some(i) => Some(i + 1)
  }

  /** `FirstUnlistable` finds the first unlistable task, and finds none
      only when there is none. */
  lemma {:induction false} FirstUnlistableIsFirst(tasks: seq<Task>, kwargs: map<string, string>)
    ensures FirstUnlistable(tasks, kwargs).None? <==> forall i :: 0 <= i < |tasks| ==> !Unlistable(tasks[i], kwargs)
    ensures FirstUnlistable(tasks, kwargs).Some? ==>
      forall j :: 0 <= j < FirstUnlistable(tasks, kwargs).value ==> !Unlistable(tasks[j], kwargs)
  {
    if tasks != [] {
      FirstUnlistableIsFirst(tasks[1..], kwargs);
      assert forall i :: 1 <= i < |tasks| ==> tasks[i] == tasks[1..][i - 1];
    }
  }

  /** One more task at the end is the first unlistable one exactly when
      none before it is and it is. */
  lemma {:induction false} FirstUnlistableAppend(tasks: seq<Task>, t: Task, kwargs: map<string, string>)
    ensures FirstUnlistable(tasks + [t], kwargs) ==
      if FirstUnlistable(tasks, kwargs).Some? then FirstUnlistable(tasks, kwargs)
      else if Unlistable(t, kwargs) then Some(|tasks|)
      else None
  {
    if tasks == [] {
      assert [] + [t] == [t];
    } else {
      assert (tasks + [t])[0] == tasks[0];
      assert (tasks + [t])[1..] == tasks[1..] + [t];
      FirstUnlistableAppend(tasks[1..], t, kwargs);
    }
  }

  /** Without a filter, one vacuum task starting before 1900 is enough to
      make the listing fail. */
  lemma EarlyVacuumBlocksListing(tasks: seq<Task>, i: nat)
    requires i < |tasks| && tasks[i].workerName == "vacuum_worker" && tasks[i].startDatetime.year < 1900
    ensures FirstUnlistable(tasks, map[]).Some?
    ensures Listing(tasks, map[]).Err?
  {
    assert Unlistable(tasks[i], map[]);
    FirstUnlistableIsFirst(tasks, map[]);
    ListingAgrees(tasks, map[]);
  }

  /** The year of the first unlistable task. */
  function UnlistableYear(tasks: seq<Task>, kwargs: map<string, string>): int
    requires FirstUnlistable(tasks, kwargs).Some?
  {
    tasks[FirstUnlistable(tasks, kwargs).value].startDatetime.year
  }

  /** What `list_scheduled_vacuum` makes of the tasks, task by task: the
      entries of the kept tasks, or the `ValueError` of the first kept task
      whose start `strftime` refuses. */
  function Listing(tasks: seq<Task>, kwargs: map<string, string>): Result<seq<VacuumEntry>, Error> {
    if tasks == [] then Ok([])
    else
      var last := tasks[|tasks| - 1];
      match Listing(tasks[..|tasks| - 1], kwargs)
      case Err(e) => Err(e)
      case Ok(entries) =>
        if !IsListed(last, kwargs) then Ok(entries)
        else
          match UtcTime.Strftime(last.startDatetime)
          case None => Err(YearBefore1900(last.startDatetime.year))
          case Some(_) => Ok(entries + [EntryOf(last)])
  }

  /** Once the listing of a prefix has failed, the listing of the whole
      fails the same way. */
  lemma {:induction false} ListingErrorStays(tasks: seq<Task>, kwargs: map<string, string>, k: nat)
    requires k <= |tasks| && Listing(tasks[..k], kwargs).Err?
    decreases |tasks| - k
    ensures Listing(tasks, kwargs) == Listing(tasks[..k], kwargs)
  {
    if k < |tasks| {
      assert tasks[..k + 1][..k] == tasks[..k];
      ListingErrorStays(tasks, kwargs, k + 1);
    } else {
      assert tasks[..k] == tasks;
    }
  }

  /** A kept task starting before 1900, after a prefix that lists, ends
      the listing with its `ValueError`. */
  lemma ListingStops(tasks: seq<Task>, kwargs: map<string, string>, i: nat)
    requires i < |tasks| && Listing(tasks[..i], kwargs).Ok?
    requires IsListed(tasks[i], kwargs) && tasks[i].startDatetime.year < 1900
    ensures Listing(tasks, kwargs) == Err(YearBefore1900(tasks[i].startDatetime.year))
  {
    assert tasks[..i + 1][..i] == tasks[..i];
    ListingErrorStays(tasks, kwargs, i + 1);
  }

  /** The listing succeeds exactly when no kept task starts before 1900;
      it then shows `ScheduledVacuums`, and otherwise fails with the message
      of the first such task. */
  lemma {:induction false} ListingAgrees(tasks: seq<Task>, kwargs: map<string, string>)
    ensures Listing(tasks, kwargs).Ok? <==> FirstUnlistable(tasks, kwargs).None?
    ensures Listing(tasks, kwargs).Ok? ==> Listing(tasks, kwargs).value == ScheduledVacuums(tasks, kwargs)
    ensures Listing(tasks, kwargs).Err? ==>
      Listing(tasks, kwargs).error == YearBefore1900(UnlistableYear(tasks, kwargs))
  {
    if tasks != [] {
      var a, t := tasks[..|tasks| - 1], tasks[|tasks| - 1];
      assert tasks == a + [t];
      ListingAgrees(a, kwargs);
      FirstUnlistableAppend(a, t, kwargs);
      if FirstUnlistable(a, kwargs).Some? {
        var k := FirstUnlistable(a, kwargs).value;
        assert Listing(tasks, kwargs) == Listing(a, kwargs);
        assert tasks[k] == a[k];
      } else {
        ScheduledVacuumsAppend(a, t, kwargs);
        if IsListed(t, kwargs) && t.startDatetime.year < 1900 {
          assert FirstUnlistable(tasks, kwargs) == Some(|a|);
        }
      }
    }
  }

  /** The request `list_scheduled_vacuum` sends. */
  function TaskListEnvelope(home: string): Envelope {
    Envelope(SocketPath(home), Message(TaskListType, EmptyPayload))
  }

  /** `list_scheduled_vacuum(app, **kwargs)`.  `reply` is the task
      manager's answer to the list request.  The first kept task whose start
      is before 1900 ends the listing with `strftime`'s `ValueError`. */
  method ListScheduledVacuum(reply: Sent<seq<Task>>, kwargs: map<string, string>)
    returns (r: Result<seq<VacuumEntry>, Error>)
    ensures reply.Raised? ==> r == Err(HttpError(500, "Unable to get scheduled vacuum list"))
    ensures reply.Returned? ==> r == Listing(reply.value, kwargs)
  {
    if reply.Raised? {
      return Err(HttpError(500, "Unable to get scheduled vacuum list"));
    }
    var tasks := reply.value;
    var ret: seq<VacuumEntry> := [];
    for i := 0 to |tasks|
      invariant Listing(tasks[..i], kwargs) == Ok(ret)
    {
      var task := tasks[i];
      assert tasks[..i + 1][..i] == tasks[..i];
      if task.workerName != "vacuum_worker" {
        continue;
      }
      var options := task.options;
      if FilterOn(kwargs) &&
         (Some(kwargs["dbname"]) != Get(options, "dbname") ||
          Some(kwargs["schema"]) != Get(options, "schema") ||
          Some(kwargs["table"]) != Get(options, "table")) {
        continue;
      }
      var datetime := UtcTime.Strftime(task.startDatetime);
      if datetime.None? {
        ListingStops(tasks, kwargs, i);
        return Err(YearBefore1900(task.startDatetime.year));
      }
      ret := ret + [VacuumEntry(task.id, Get(options, "dbname"), Get(options, "schema"),
                                Get(options, "table"), Get(options, "mode"),
                                datetime.value, TaskStatusLabel(task.status))];
    }
    assert tasks[..|tasks|] == tasks;
    r := Ok(ret);
  }

  // ---------------------------------------------------------------------
  // cancel_scheduled_vacuum

  function Ids(entries: seq<VacuumEntry>): (ids: seq<string>)
    ensures |ids| == |entries|
    ensures forall i :: 0 <= i < |entries| ==> ids[i] == entries[i].id
  {
    seq(|entries|, i requires 0 <= i < |entries| => entries[i].id)
  }

  /** An id in the listing belongs to a vacuum task. */
  lemma ListedIdIsVacuumTask(tasks: seq<Task>, kwargs: map<string, string>, k: nat)
    requires k < |ScheduledVacuums(tasks, kwargs)|
    ensures exists i :: 0 <= i < |tasks| && tasks[i].workerName == "vacuum_worker"
                        && tasks[i].id == ScheduledVacuums(tasks, kwargs)[k].id
  {
    var e := ScheduledVacuums(tasks, kwargs)[k];
    ListedEntryHasTask(tasks, kwargs, k);
    var i :| 0 <= i < |tasks| && IsListed(tasks[i], kwargs) && EntryOf(tasks[i]) == e;
    assert tasks[i].id == e.id;
  }

  /** Without a filter, every vacuum task's id is listed. */
  lemma VacuumTaskIdIsListed(tasks: seq<Task>, i: nat)
    requires i < |tasks| && tasks[i].workerName == "vacuum_worker"
    ensures tasks[i].id in Ids(ScheduledVacuums(tasks, map[]))
  {
    var out := ScheduledVacuums(tasks, map[]);
    assert IsListed(tasks[i], map[]);
    KeptTaskIsListed(tasks, map[], i);
    var k :| 0 <= k < |out| && out[k] == EntryOf(tasks[i]);
    assert Ids(out)[k] == tasks[i].id;
  }

  /** Without a filter, an id is listed exactly when some vacuum task has
      it. */
  lemma ListedIds(tasks: seq<Task>, id: string)
    ensures id in Ids(ScheduledVacuums(tasks, map[])) <==>
      exists i :: 0 <= i < |tasks| && tasks[i].workerName == "vacuum_worker" && tasks[i].id == id
  {
    var out := ScheduledVacuums(tasks, map[]);
    if id in Ids(out) {
      var k :| 0 <= k < |out| && Ids(out)[k] == id;
      ListedIdIsVacuumTask(tasks, map[], k);
    }
    if exists i :: 0 <= i < |tasks| && tasks[i].workerName == "vacuum_worker" && tasks[i].id == id {
      var i :| 0 <= i < |tasks| && tasks[i].workerName == "vacuum_worker" && tasks[i].id == id;
      VacuumTaskIdIsListed(tasks, i);
    }
  }

  /** The request that cancels task `id`. */
  function CancelEnvelope(home: string, id: string): Envelope {
    Envelope(SocketPath(home), Message(TaskCancelType, CancelPayload(id)))
  }

  /** `cancel_scheduled_vacuum(id, app)`.  `listReply` is the task manager's
      answer to the list request, `cancelRaises` whether sending the cancel
      request raises; `sent` is the messages sent, in order. */
  method CancelScheduledVacuum(id: string, home: string, listReply: Sent<seq<Task>>, cancelRaises: bool)
    returns (r: Result<map<string, string>, Error>, sent: seq<Envelope>)
    ensures listReply.Raised? ==>
      r == Err(HttpError(500, "Unable to get scheduled vacuum list")) && sent == [TaskListEnvelope(home)]
    ensures listReply.Returned? && Listing(listReply.value, map[]).Err? ==>
      r == Err(Listing(listReply.value, map[]).error) && sent == [TaskListEnvelope(home)]
    ensures listReply.Returned? && Listing(listReply.value, map[]).Ok?
            && id !in Ids(Listing(listReply.value, map[]).value) ==>
      r == Err(HttpError(404, "Scheduled vacuum operation not found")) && sent == [TaskListEnvelope(home)]
    ensures listReply.Returned? && Listing(listReply.value, map[]).Ok?
            && id in Ids(Listing(listReply.value, map[]).value) ==>
      && sent == [TaskListEnvelope(home), CancelEnvelope(home, id)]
      && r == if cancelRaises then Err(HttpError(500, "Unable to cancel vacuum operation"))
              else Ok(map["response" := "ok"])
  {
    sent := [TaskListEnvelope(home)];
    var listed := ListScheduledVacuum(listReply, map[]);
    if listed.Err? {
      return Err(listed.error), sent;
    }
    if id !in Ids(listed.value) {
      return Err(HttpError(404, "Scheduled vacuum operation not found")), sent;
    }
    sent := sent + [CancelEnvelope(home, id)];
    if cancelRaises {
      return Err(HttpError(500, "Unable to cancel vacuum operation")), sent;
    }
    r := Ok(map["response" := "ok"]);
  }

}
