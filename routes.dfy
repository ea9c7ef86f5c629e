/** The parameter types of the maintenance routes and the handling of
    `POST /maintenance/vacuum` and `DELETE /maintenance/vacuum/<id>` in
    temboardagent/plugins/maintenance/__init__.py.

    Each regular expression `(^body$)` becomes a predicate: `body` written
    out, under Python's `$` (see `Text.MatchesWithDollar`).  The object-name
    type `T_OBJECTNAME` and the checking routine `validate_parameters` are
    not part of this model: the object-name pattern is a parameter, and a
    failed check is a `ParamError` naming the parameter. */
module MaintenanceRoutes {
  import opened Wrappers
  import opened Text
  import UtcTime
  import MaintenanceFunctions

  // ---------------------------------------------------------------------
  // Route parameter types

  const VacuumModes: set<string> := {"standard", "full", "freeze", "analyze"}

  /** `T_VACUUM_MODE`: one of the four mode names. */
  predicate MatchesVacuumMode(s: string) {
    MatchesWithDollar(s, m => m in VacuumModes)
  }

  /** `T_TIMESTAMP_UTC`: the shape `DDDD-DD-DDTDD:DD:DDZ`, with no range
      check on the fields. */
  predicate MatchesTimestampUtc(s: string) {
    MatchesWithDollar(s, UtcTime.IsTimestampShape)
  }

  /** The body of `T_VACUUM_ID`: eight lower-case hex digits. */
  predicate IsVacuumId(s: string) {
    |s| == 8 && AllLowerHex(s)
  }

  /** `T_VACUUM_ID`. */
  predicate MatchesVacuumId(s: string) {
    MatchesWithDollar(s, IsVacuumId)
  }

  /** On a string without a newline the mode type accepts exactly the four
      modes; a mode followed by one newline also passes. */
  lemma VacuumModeExactly(s: string)
    ensures '\n' !in s ==> (MatchesVacuumMode(s) <==> s in VacuumModes)
    ensures s in VacuumModes ==> MatchesVacuumMode(s) && MatchesVacuumMode(s + "\n")
  {
    if s in VacuumModes {
      assert (s + "\n")[..|s|] == s;
    }
  }

  /** A mode that passes the route type is non-empty and has no `)`, so the
      statement the worker runs names it, upper-cased, as its one option. */
  lemma MatchedModeInStatement(schema: string, table: string, mode: string)
    requires MatchesVacuumMode(mode)
    ensures MaintenanceFunctions.ParseVacuumStatement(MaintenanceFunctions.VacuumStatement(schema, table, mode))
      == Some((Some(Upper(mode)), schema + "." + table))
  {
    var m := if mode in VacuumModes then mode else mode[..|mode| - 1];
    assert m in VacuumModes;
    assert ')' !in m;
    if mode !in VacuumModes {
      assert mode == m + "\n";
    }
    assert ')' !in mode && mode != "";
    MaintenanceFunctions.ParseVacuumStatementWithMode(schema, table, mode);
  }

  /** Every string `strptime` accepts passes the timestamp type once its
      `t` and `z` are written upper-case, and passes as it is exactly when
      they already are. */
  lemma ParsedMatchesTimestampUtc(s: string)
    requires UtcTime.Parse(s).Some?
    ensures MatchesTimestampUtc(Upper(s))
    ensures MatchesTimestampUtc(s) <==> s[10] == 'T' && s[19] == 'Z'
  {
    UtcTime.UpperOfStrptimeShape(s);
  }

  /** The timestamp type is case-sensitive where `strptime` is not: a
      timestamp written with a lower-case `t` and `z` is read by `strptime`
      but refused by the type. */
  lemma TimestampTypeIsCaseSensitive(dt: UtcTime.DateTime)
    requires UtcTime.Valid(dt)
    ensures UtcTime.Parse(Lower(UtcTime.Format(dt))) == Some(dt.(microsecond := 0))
    ensures !MatchesTimestampUtc(Lower(UtcTime.Format(dt)))
  {
    UtcTime.LowerOfTimestampShape(UtcTime.Format(dt));
    UtcTime.ParseFormat(dt);
  }

  /** What `strftime` writes for any datetime passes the timestamp type. */
  lemma FormatMatchesTimestampUtc(dt: UtcTime.DateTime)
    requires UtcTime.Valid(dt)
    ensures MatchesTimestampUtc(UtcTime.Format(dt))
  {
  }

  /** The timestamp type lets through a thirteenth month, which `strptime`
      then refuses. */
  lemma TimestampTypeIgnoresRanges()
    ensures MatchesTimestampUtc("2020-13-01T00:00:00Z")
    ensures UtcTime.Parse("2020-13-01T00:00:00Z").None?
  {
    var s := "2020-13-01T00:00:00Z";
    assert s[0..4] == "2020" && s[5..7] == "13" && s[8..10] == "01";
    assert s[11..13] == "00" && s[14..16] == "00" && s[17..19] == "00";
    assert UtcTime.IsTimestampShape(s);
    assert "13"[..1] == "1" && "1"[..0] == "";
    assert DecimalValue("13") == 13;
  }

  /** A timestamp followed by a newline passes the type but not
      `strptime`. */
  lemma TimestampTypeAllowsNewline(dt: UtcTime.DateTime)
    requires UtcTime.Valid(dt)
    ensures MatchesTimestampUtc(UtcTime.Format(dt) + "\n")
    ensures UtcTime.Parse(UtcTime.Format(dt) + "\n").None?
  {
    var s := UtcTime.Format(dt);
    assert (s + "\n")[..|s|] == s;
  }

  /** Every id `schedule_vacuum` gives a task passes the vacuum-id type. */
  lemma TaskIdMatchesVacuumId(md5: MaintenanceFunctions.Md5, database: string, schema: string,
                              table: string, datetimeutc: string)
    ensures MatchesVacuumId(MaintenanceFunctions.TaskId(md5, database, schema, table, datetimeutc))
  {
  }

  // ---------------------------------------------------------------------
  // post_vacuum

  /** A failed parameter check of `validate_parameters`. */
  datatype ParamError = MissingParameter(name: string) | MalformedParameter(name: string)

  /** The checked arguments `post_vacuum` hands to `schedule_vacuum`. */
  datatype VacuumArgs = VacuumArgs(
    dbname: string, schema: string, table: string, datetime: string, mode: string)

  /** One parameter of `validate_parameters`: present, and matching its
      type. */
  function CheckParameter(post: map<string, string>, name: string, matches: string -> bool)
    : (r: Result<string, ParamError>)
    ensures name !in post ==> r == Err(MissingParameter(name))
    ensures name in post && !matches(post[name]) ==> r == Err(MalformedParameter(name))
    ensures r.Ok? <==> name in post && matches(post[name])
    ensures r.Ok? ==> r.value == post[name]
  {
    if name !in post then Err(MissingParameter(name))
    else if !matches(post[name]) then Err(MalformedParameter(name))
    else Ok(post[name])
  }

  /** The errors `post_vacuum` reports: a refused parameter, or an
      exception raised on the way (by `strftime` or `schedule_vacuum`). */
  datatype PostError = ParameterRefused(param: ParamError) | Raised(error: MaintenanceFunctions.Error)

  /** The parameter handling of `post_vacuum`: the three names are checked
      in order, `datetime` and `mode` only when they are sent; `mode`
      defaults to "standard".  The default of `datetime`, `now` (the value
      of `datetime.utcnow()`) formatted by `strftime`, is computed whether
      or not `datetime` is sent, after the `datetime` check and before the
      `mode` check. */
  function PostVacuumArgs(post: map<string, string>, now: UtcTime.ValidDateTime,
                          isObjectName: string -> bool): (r: Result<VacuumArgs, PostError>)
    ensures r.Ok? <==>
      && "dbname" in post && isObjectName(post["dbname"])
      && "schema" in post && isObjectName(post["schema"])
      && "table" in post && isObjectName(post["table"])
      && ("datetime" in post ==> MatchesTimestampUtc(post["datetime"]))
      && now.year >= 1900
      && ("mode" in post ==> MatchesVacuumMode(post["mode"]))
    ensures r.Ok? ==>
      && r.value.dbname == post["dbname"]
      && r.value.schema == post["schema"]
      && r.value.table == post["table"]
      && r.value.datetime == (if "datetime" in post then post["datetime"] else UtcTime.Format(now))
      && r.value.mode == (if "mode" in post then post["mode"] else "standard")
    ensures r.Ok? ==> MatchesTimestampUtc(r.value.datetime) && MatchesVacuumMode(r.value.mode)
    ensures r.Err? ==> r.error == FirstPostError(post, now, isObjectName)
  {
    match CheckParameter(post, "dbname", isObjectName)
    case Err(e) => Err(ParameterRefused(e))
    case Ok(dbname) =>
      match CheckParameter(post, "schema", isObjectName)
      case Err(e) => Err(ParameterRefused(e))
      case Ok(schema) =>
        match CheckParameter(post, "table", isObjectName)
        case Err(e) => Err(ParameterRefused(e))
        case Ok(table) =>
          if "datetime" in post && !MatchesTimestampUtc(post["datetime"]) then
            Err(ParameterRefused(MalformedParameter("datetime")))
          else
            match UtcTime.Strftime(now)
            case None => Err(Raised(MaintenanceFunctions.YearBefore1900(now.year)))
            case Some(default) =>
              var dt := GetOr(post, "datetime", default);
              if "mode" in post && !MatchesVacuumMode(post["mode"]) then
                Err(ParameterRefused(MalformedParameter("mode")))
              else
                Ok(VacuumArgs(dbname, schema, table, dt, GetOr(post, "mode", "standard")))
  }

  /** The order in which `post_vacuum` reports errors, written as one flat
      chain of tests: the first failing step in the order dbname, schema,
      table, datetime, the default datetime, mode.  `PostVacuumArgs` is
      proved to report exactly this error whenever it refuses a request. */
  function FirstPostError(post: map<string, string>, now: UtcTime.ValidDateTime,
                          isObjectName: string -> bool): PostError {
    if "dbname" !in post then ParameterRefused(MissingParameter("dbname"))
    else if !isObjectName(post["dbname"]) then ParameterRefused(MalformedParameter("dbname"))
    else if "schema" !in post then ParameterRefused(MissingParameter("schema"))
    else if !isObjectName(post["schema"]) then ParameterRefused(MalformedParameter("schema"))
    else if "table" !in post then ParameterRefused(MissingParameter("table"))
    else if !isObjectName(post["table"]) then ParameterRefused(MalformedParameter("table"))
    else if "datetime" in post && !MatchesTimestampUtc(post["datetime"]) then
      ParameterRefused(MalformedParameter("datetime"))
    else if now.year < 1900 then Raised(MaintenanceFunctions.YearBefore1900(now.year))
    else ParameterRefused(MalformedParameter("mode"))
  }

  /** Only the parameters that are sent are checked: a request with the
      three names and neither `datetime` nor `mode` is accepted whatever
      else it holds, as long as the clock can be formatted. */
  lemma OptionalParametersDefault(post: map<string, string>, now: UtcTime.ValidDateTime,
                                  isObjectName: string -> bool)
    requires "dbname" in post && isObjectName(post["dbname"])
    requires "schema" in post && isObjectName(post["schema"])
    requires "table" in post && isObjectName(post["table"])
    requires "datetime" !in post && "mode" !in post
    ensures PostVacuumArgs(post, now, isObjectName) ==
      if now.year >= 1900
      then Ok(VacuumArgs(post["dbname"], post["schema"], post["table"], UtcTime.Format(now), "standard"))
      else Err(Raised(MaintenanceFunctions.YearBefore1900(now.year)))
  {
  }

  /** The default datetime is computed even when one is sent: a clock
      before 1900 refuses every request whose names and datetime pass. */
  lemma EarlyClockRefusesPost(post: map<string, string>, now: UtcTime.ValidDateTime,
                              isObjectName: string -> bool)
    requires "dbname" in post && isObjectName(post["dbname"])
    requires "schema" in post && isObjectName(post["schema"])
    requires "table" in post && isObjectName(post["table"])
    requires "datetime" in post ==> MatchesTimestampUtc(post["datetime"])
    requires now.year < 1900
    ensures PostVacuumArgs(post, now, isObjectName) == Err(Raised(MaintenanceFunctions.YearBefore1900(now.year)))
  {
  }

  /** `post_vacuum(http_context, app)`: the parameters, then
      `schedule_vacuum` on them. */
  function PostVacuum<C>(
    post: map<string, string>, now: UtcTime.ValidDateTime, isObjectName: string -> bool,
    tableRows: nat, home: string, config: seq<bv8>, md5: MaintenanceFunctions.Md5,
    scheduleTask: MaintenanceFunctions.ScheduleRequest -> MaintenanceFunctions.Sent<MaintenanceFunctions.Response<C>>)
    : (r: Result<C, PostError>)
    ensures PostVacuumArgs(post, now, isObjectName).Err? ==>
      r == Err(PostVacuumArgs(post, now, isObjectName).error)
    ensures PostVacuumArgs(post, now, isObjectName).Ok? ==>
      var a := PostVacuumArgs(post, now, isObjectName).value;
      var s := MaintenanceFunctions.ScheduleVacuum(tableRows, a.dbname, a.schema, a.table, a.mode, a.datetime,
                                                   home, config, md5, scheduleTask);
      r == if s.Ok? then Ok(s.value) else Err(Raised(s.error))
  {
    match PostVacuumArgs(post, now, isObjectName)
    case Err(e) => Err(e)
    case Ok(a) =>
      match MaintenanceFunctions.ScheduleVacuum(tableRows, a.dbname, a.schema, a.table, a.mode, a.datetime,
                                                home, config, md5, scheduleTask)
      case Err(e) => Err(Raised(e))
      case Ok(c) => Ok(c)
  }

  /** Without a `datetime` parameter the default time always parses: the
      task is requested for `now` on its whole second, plus one
      microsecond. */
  lemma DefaultDatetimeSchedules(post: map<string, string>, now: UtcTime.ValidDateTime,
                                 isObjectName: string -> bool, home: string, config: seq<bv8>,
                                 md5: MaintenanceFunctions.Md5)
    requires PostVacuumArgs(post, now, isObjectName).Ok?
    requires "datetime" !in post
    ensures var a := PostVacuumArgs(post, now, isObjectName).value;
      var req := MaintenanceFunctions.VacuumScheduleRequest(a.dbname, a.schema, a.table, a.mode, a.datetime,
                                                             home, config, md5);
      && req.Some?
      && req.value.start == now.(microsecond := 1)
  {
    UtcTime.ParseFormat(now);
  }

  /** A sent `datetime` with a trailing newline passes the parameter check
      and then makes `schedule_vacuum` fail with 500, for any answer of the
      task manager (a clock before 1900 fails earlier, in `strftime`). */
  lemma NewlineDatetimeGives500<C>(
    post: map<string, string>, now: UtcTime.ValidDateTime, isObjectName: string -> bool,
    tableRows: nat, home: string, config: seq<bv8>, md5: MaintenanceFunctions.Md5,
    scheduleTask: MaintenanceFunctions.ScheduleRequest -> MaintenanceFunctions.Sent<MaintenanceFunctions.Response<C>>,
    dt: UtcTime.DateTime)
    requires "dbname" in post && isObjectName(post["dbname"])
    requires "schema" in post && isObjectName(post["schema"])
    requires "table" in post && isObjectName(post["table"])
    requires "mode" !in post
    requires UtcTime.Valid(dt) && tableRows > 0
    requires "datetime" in post && post["datetime"] == UtcTime.Format(dt) + "\n"
    ensures PostVacuumArgs(post, now, isObjectName).Ok? <==> now.year >= 1900
    ensures PostVacuum(post, now, isObjectName, tableRows, home, config, md5, scheduleTask)
      == Err(Raised(if now.year >= 1900 then MaintenanceFunctions.HttpError(500, "Unable to schedule vacuum")
                    else MaintenanceFunctions.YearBefore1900(now.year)))
  {
    TimestampTypeAllowsNewline(dt);
  }

  // ---------------------------------------------------------------------
  // delete_vacuum

  /** `delete_vacuum(http_context, app)`: the id captured by the route is
      passed unchanged to `cancel_scheduled_vacuum`. */
  method DeleteVacuum(urlvars: seq<string>, home: string,
                      listReply: MaintenanceFunctions.Sent<seq<MaintenanceFunctions.Task>>, cancelRaises: bool)
    returns (r: Result<map<string, string>, MaintenanceFunctions.Error>, sent: seq<MaintenanceFunctions.Envelope>)
    requires |urlvars| >= 1
    ensures listReply.Raised? ==>
      r == Err(MaintenanceFunctions.HttpError(500, "Unable to get scheduled vacuum list"))
    ensures listReply.Returned? && MaintenanceFunctions.Listing(listReply.value, map[]).Err? ==>
      r == Err(MaintenanceFunctions.Listing(listReply.value, map[]).error)
    ensures listReply.Returned? && MaintenanceFunctions.Listing(listReply.value, map[]).Ok?
            && urlvars[0] !in MaintenanceFunctions.Ids(MaintenanceFunctions.Listing(listReply.value, map[]).value) ==>
      r == Err(MaintenanceFunctions.HttpError(404, "Scheduled vacuum operation not found"))
    ensures |sent| == 2 && cancelRaises ==>
      r == Err(MaintenanceFunctions.HttpError(500, "Unable to cancel vacuum operation"))
    ensures |sent| >= 1 && sent[0] == MaintenanceFunctions.TaskListEnvelope(home)
    ensures |sent| == 2 <==>
      && listReply.Returned?
      && var listing := MaintenanceFunctions.Listing(listReply.value, map[]);
      && listing.Ok?
      && urlvars[0] in MaintenanceFunctions.Ids(listing.value)
    ensures |sent| <= 2
    ensures |sent| == 2 ==> sent[1] == MaintenanceFunctions.CancelEnvelope(home, urlvars[0])
    ensures r.Ok? <==> |sent| == 2 && !cancelRaises
    ensures r.Ok? ==> r.value == map["response" := "ok"]
  {
    r, sent := MaintenanceFunctions.CancelScheduledVacuum(urlvars[0], home, listReply, cancelRaises);
  }
}
