# temboard-agent maintenance: vacuum scheduling and input validators

This project is a Dafny model of three parts of temboard-agent:

- **The vacuum client of the maintenance plugin** (`temboardagent/plugins/maintenance/functions.py`). It covers:
  - the task-status label;
  - the deduplication id of a scheduled vacuum;
  - the start time a vacuum is scheduled for;
  - the `VACUUM` statement a worker runs;
  - listing scheduled vacuums, and cancelling one, through the task manager.
- **The user-input validators** (`temboardagent/validators.py`): `address`, `boolean`, `jsonlist`, `port`, `loglevel`, `logmethod` and `syslogfacility`.
- **The maintenance routes** (`temboardagent/plugins/maintenance/__init__.py`):
  - the regular expressions typing the vacuum mode, the UTC timestamp and the vacuum id;
  - parameter checking and defaults in `post_vacuum`;
  - the pass-through in `delete_vacuum`.

Modules:

- `Wrappers` holds `Option` and `Result`. An `Err` stands for a raised exception.
- `Text` holds:
  - ASCII character classes and ASCII case mapping;
  - decimal numerals;
  - `str.split` and `str.join`;
  - Python's `$` anchor, which also matches before one final newline.
- `UtcTime` covers `strptime`/`strftime` with `%Y-%m-%dT%H:%M:%SZ`, and adding one microsecond.
- `Validators`, `MaintenanceFunctions` and `MaintenanceRoutes` follow the three source files.

Calls out of the modelled code become parameters:

- the number of rows of the table-existence query;
- the task manager's answer to each request: `Returned(value)`, or `Raised` when the call raises;
- whether executing the `VACUUM` statement raises;
- an MD5 function whose digests are 32 lower-case hex digits;
- `json.loads`;
- `datetime.utcnow()`;
- the object-name pattern;
- the sets `logging._levelNames`, `LOG_METHODS` and `SysLogHandler.facility_names`.

A property of the form "no call is made" is stated as "the result does not depend on what that call would answer". The messages sent to the task manager are returned as a sequence.

Facts the model makes explicit:

- Status 0 has bit length 0. Index -1 then picks the last label, so its label is "abort" (`LabelOfZero`).
- The deduplication key `db:schema:table:datetime` is one to one when the names contain no colon (`DedupKeyInjective`). A colon inside a name makes two tables share an id (`DedupKeyCollision`).
- Python's `$` also matches before one final newline. Each route pattern therefore also accepts its word followed by one newline. This assumes that `validate_parameters`, which is not part of this model, applies `re.match` with the pattern to the value.
  - A timestamp with a trailing newline passes `T_TIMESTAMP_UTC`.
  - `strptime` then refuses it, so `post_vacuum` answers 500 (`NewlineDatetimeGives500`).
- `T_TIMESTAMP_UTC` does not check field ranges. A thirteenth month passes it and fails later (`TimestampTypeIgnoresRanges`).
- `strptime` compiles its pattern case-insensitively, so it also reads a lower-case `t` and `z`. `T_TIMESTAMP_UTC` is case-sensitive and refuses them (`TimestampTypeIsCaseSensitive`). When `schedule_vacuum` is called directly with such a string, the listing later shows it with `T` and `Z` (`ScheduledStartFormatsBack`).
- The code runs under Python 2, whose `strftime` raises `ValueError` for a year before 1900.
  - `strptime` accepts such a year, so a vacuum can be scheduled for it (`EarlyStartSchedules`).
  - Listing then fails on that task, outside the `try`. So `list_scheduled_vacuum` fails, and so does `cancel_scheduled_vacuum` for every id (`ListingAgrees`, `EarlyVacuumBlocksListing`).
  - `post_vacuum` formats the clock even when a datetime is sent, so a clock before 1900 refuses every request (`EarlyClockRefusesPost`).

## Model

| member | source | states |
|---|---|---|
| MaintenanceFunctions.TaskStatusLabel | temboardagent/plugins/maintenance/functions.py:532-539 | the label is "unknown" or one of the nine labels; it never raises |
| MaintenanceFunctions.LabelOfHighestBit | temboardagent/plugins/maintenance/functions.py:532-539 | for k ≤ 8 and 2^k ≤ s < 2^(k+1) the label is the k-th label |
| MaintenanceFunctions.LabelUnknownFrom512 | temboardagent/plugins/maintenance/functions.py:535-539 | every status from 512 on is "unknown" |
| MaintenanceFunctions.LabelUnknownIff | temboardagent/plugins/maintenance/functions.py:535-539 | a non-negative status is "unknown" if and only if it is at least 512 |
| MaintenanceFunctions.LabelOfZero | temboardagent/plugins/maintenance/functions.py:535-539 | status 0 wraps to the last label, "abort" |
| MaintenanceFunctions.DedupKey | temboardagent/plugins/maintenance/functions.py:466-471 | the hashed text: database, schema, table and datetime joined by colons; DedupKeyInjective and DedupKeyCollision say when it identifies the table |
| MaintenanceFunctions.TaskId | temboardagent/plugins/maintenance/functions.py:465-479 | the id is 8 lower-case hex digits cut from the digest of the key |
| MaintenanceFunctions.DedupKeyInjective | temboardagent/plugins/maintenance/functions.py:466-471 | with colon-free names, equal keys come only from equal (database, schema, table, datetime) |
| MaintenanceFunctions.DedupKeyCollision | temboardagent/plugins/maintenance/functions.py:466-471 | a colon in a name lets two different tables share a key |
| MaintenanceFunctions.VacuumScheduleRequest | temboardagent/plugins/maintenance/functions.py:473-493 | a request exists iff strptime reads the datetime; it names the vacuum worker, the id, the options, the socket under home and expire 0; its start is the parsed time with microsecond 1, strictly later than the parsed time |
| MaintenanceFunctions.ScheduledStartFormatsBack | temboardagent/plugins/maintenance/functions.py:475-489 | formatting the start as the listing does gives the requested datetime string back (a lower-case t or z upper-cased); Python 2 strftime gives it iff the year is at least 1900 |
| MaintenanceFunctions.EarlyStartSchedules | temboardagent/plugins/maintenance/functions.py:475-489 | a datetime before 1900 is scheduled, and its start is one that strftime refuses |
| MaintenanceFunctions.ScheduleIdIgnoresMode | temboardagent/plugins/maintenance/functions.py:465-485 | the id is the same for two modes of the same table and time |
| MaintenanceFunctions.ScheduleVacuum | temboardagent/plugins/maintenance/functions.py:450-502 | no table rows gives 404 "Table s.t not found"; every other failure gives 500 "Unable to schedule vacuum"; it succeeds iff the table exists, the datetime parses, and the task manager returns a non-error reply, whose content is the result |
| MaintenanceFunctions.ScheduleVacuumNoCallOnEarlyError | temboardagent/plugins/maintenance/functions.py:454-476 | a missing table or an unparsable datetime fails whatever the task manager would answer |
| MaintenanceFunctions.VacuumStatement | temboardagent/plugins/maintenance/functions.py:516-518 | the statement starts with VACUUM, with " (" next when a mode is given, and ends with schema.table |
| MaintenanceFunctions.ParseVacuumStatementRoundTrip | temboardagent/plugins/maintenance/functions.py:516-518 | the statement reads back as the upper-cased mode (when one is given) and schema.table |
| MaintenanceFunctions.ParseVacuumStatementNoMode | temboardagent/plugins/maintenance/functions.py:516-518 | without a mode the statement is "VACUUM schema.table" |
| MaintenanceFunctions.ParseVacuumStatementWithMode | temboardagent/plugins/maintenance/functions.py:516-518 | with a mode the statement is "VACUUM (MODE)  schema.table", with two spaces |
| MaintenanceFunctions.IsListed | temboardagent/plugins/maintenance/functions.py:559-568 | a task is kept iff it is a vacuum task and, when all three filter keys are given, its dbname, schema and table equal them |
| MaintenanceFunctions.EntryOf | temboardagent/plugins/maintenance/functions.py:570-578 | the contract states that the entry carries the task id; its other fields (dbname, schema, table and mode from the options, the formatted start, the status label) are its definition |
| MaintenanceFunctions.Vacuum | temboardagent/plugins/maintenance/functions.py:505-529 | a missing table raises UserError and executes nothing; otherwise exactly the built statement is executed, and an execution error becomes UserError "Unable to run vacuum m on s.t" |
| MaintenanceFunctions.ScheduledVacuums | temboardagent/plugins/maintenance/functions.py:556-579 | the entries of the kept tasks; never longer than the task list |
| MaintenanceFunctions.ScheduledVacuumsConcat | temboardagent/plugins/maintenance/functions.py:556-579 | the listing of a concatenation is the concatenation of the listings, so order is kept |
| MaintenanceFunctions.ScheduledVacuumsAppend | temboardagent/plugins/maintenance/functions.py:556-579 | one more task adds its entry at the end exactly when it is kept |
| MaintenanceFunctions.ScheduledVacuumsMembers | temboardagent/plugins/maintenance/functions.py:556-578 | an entry is listed iff some kept task shows it |
| MaintenanceFunctions.ScheduledVacuumsFiltered | temboardagent/plugins/maintenance/functions.py:563-568 | with all three filter keys given, every entry has exactly that dbname, schema and table |
| MaintenanceFunctions.FirstUnlistable | temboardagent/plugins/maintenance/functions.py:576 | the position of a kept task whose start strftime refuses |
| MaintenanceFunctions.FirstUnlistableIsFirst | temboardagent/plugins/maintenance/functions.py:556-576 | none is found iff no kept task starts before 1900; the one found is the first |
| MaintenanceFunctions.Listing | temboardagent/plugins/maintenance/functions.py:556-579 | the loop task by task: the entries so far, or the ValueError of the first kept task before 1900; ListingAgrees relates it to ScheduledVacuums |
| MaintenanceFunctions.ListingErrorStays | temboardagent/plugins/maintenance/functions.py:556-579 | once a prefix has raised, the whole listing raises the same error |
| MaintenanceFunctions.ListingStops | temboardagent/plugins/maintenance/functions.py:576 | a kept task before 1900 after a prefix that lists ends the listing with its ValueError |
| MaintenanceFunctions.ListingAgrees | temboardagent/plugins/maintenance/functions.py:556-579 | the listing succeeds iff no kept task starts before 1900, and then equals ScheduledVacuums; otherwise it names the year of the first such task |
| MaintenanceFunctions.EarlyVacuumBlocksListing | temboardagent/plugins/maintenance/functions.py:576-587 | without a filter, one vacuum task before 1900 makes the listing fail, and with it every cancel |
| MaintenanceFunctions.ListScheduledVacuum | temboardagent/plugins/maintenance/functions.py:542-579 | a failed list request gives 500; otherwise the loop's result is Listing of the returned tasks |
| MaintenanceFunctions.Ids | temboardagent/plugins/maintenance/functions.py:587 | the ids of the listing, entry by entry |
| MaintenanceFunctions.ListedIdIsVacuumTask | temboardagent/plugins/maintenance/functions.py:587 | an id in the listing is the id of a vacuum task |
| MaintenanceFunctions.VacuumTaskIdIsListed | temboardagent/plugins/maintenance/functions.py:587 | without a filter, every vacuum task's id is in the listing |
| MaintenanceFunctions.ListedIds | temboardagent/plugins/maintenance/functions.py:587 | without a filter, an id is listed iff some vacuum task has it |
| MaintenanceFunctions.CancelScheduledVacuum | temboardagent/plugins/maintenance/functions.py:582-604 | the list request is always sent first; a failed list request gives 500 and a failing listing its own error; an unlisted id gives 404 with no cancel message; otherwise exactly one cancel message carrying the id follows, and the result is {"response": "ok"}, or 500 when sending it raises |
| UtcTime.Parse | temboardagent/plugins/maintenance/functions.py:475 | strptime succeeds iff the text has the timestamp shape (T and Z in either case) and in-range fields, giving a valid datetime with no microseconds |
| UtcTime.Format | temboardagent/plugins/maintenance/functions.py:576 | the written text has the timestamp shape with upper-case T and Z |
| UtcTime.Strftime | temboardagent/plugins/maintenance/functions.py:576 | Python 2 strftime writes Format iff the year is at least 1900, and raises otherwise |
| UtcTime.AddMicrosecond | temboardagent/plugins/maintenance/functions.py:489 | the sum is a valid, strictly later datetime, with the microsecond bumped when it is below 999999; it overflows only at the last representable microsecond |
| UtcTime.AddMicrosecondIsNext | temboardagent/plugins/maintenance/functions.py:489 | the sum is exactly one microsecond later on the proleptic Gregorian microsecond count |
| UtcTime.OrdOrdersBefore | temboardagent/plugins/maintenance/functions.py:489 | the microsecond count orders valid datetimes chronologically |
| UtcTime.NothingBetween | temboardagent/plugins/maintenance/functions.py:489 | no valid datetime lies strictly between a datetime and its sum |
| UtcTime.ParseFormat | temboardagent/plugins/maintenance/functions.py:475 | parsing a formatted datetime gives it back without microseconds |
| UtcTime.FormatParse | temboardagent/plugins/maintenance/functions.py:475 | formatting a parsed string gives it back, with t and z upper-cased |
| UtcTime.FormatAddMicrosecond | temboardagent/plugins/maintenance/functions.py:489 | one microsecond added to a whole second leaves the formatted text unchanged |
| Validators.IsOctet | temboardagent/validators.py:22-23 | an octet alternative is one to three ASCII digits |
| Validators.IsDottedQuad | temboardagent/validators.py:21-25 | four octets separated by dots; AddressAcceptsQuad and AddressAcceptsOnlyQuads fix the set it accepts |
| Validators.OctetIsByteNumeral | temboardagent/validators.py:21-25 | an octet alternative matches exactly a numeral of 0..255 with no leading zero |
| Validators.Address | temboardagent/validators.py:28-31 | an accepted address is returned unchanged; a refused one raises "invalid address" |
| Validators.AddressAcceptsQuad | temboardagent/validators.py:21-31 | four numbers in 0..255 joined by dots are accepted, with or without one trailing newline |
| Validators.AddressAcceptsOnlyQuads | temboardagent/validators.py:21-31 | whatever is accepted is four numbers in 0..255 joined by dots, possibly followed by one newline |
| Validators.AddressIdempotent | temboardagent/validators.py:9 | address accepts what it returns |
| Validators.StrToBool | temboardagent/validators.py:38 | true exactly for y/yes/t/true/on/1, false exactly for n/no/f/false/off/0, in any case; anything else raises "invalid truth value" |
| Validators.Boolean | temboardagent/validators.py:34-38 | a bool is returned unchanged; a string goes through strtobool |
| Validators.TruthWordsDisjoint | temboardagent/validators.py:38 | no word is both true and false |
| Validators.BooleanIgnoresCase | temboardagent/validators.py:38 | upper-casing the text does not change the outcome |
| Validators.BooleanIdempotent | temboardagent/validators.py:9 | boolean accepts what it returns |
| Validators.FirstInvalid | temboardagent/validators.py:66-68 | the checking loop stops at the first entry that is not an identifier, or at none iff all are |
| Validators.StrEach | temboardagent/validators.py:65 | the entries are the str of each item, in order |
| Validators.JsonList | temboardagent/validators.py:58-70 | every returned entry is an identifier; a list gives one entry per item; text is decoded first, and a decoding error is raised as it is; a decoded value that is not a list, or a value that is neither a list nor text, raises "not a list" |
| Validators.JsonListOfList | temboardagent/validators.py:58-70 | a list is accepted iff every item's str is an identifier, and then the result is those strs in order; otherwise an offending entry is named "… is invalid" |
| Validators.JsonListOfText | temboardagent/validators.py:59-63 | text goes through `json.loads`: its error is raised, a non-list is refused with "not a list", and a decoded list is checked exactly as a list given directly |
| Validators.JsonListRefusesNonList | temboardagent/validators.py:62-63 | a value that is neither a list nor text raises "not a list" |
| Validators.JsonListEntriesAreIdentifiers | temboardagent/validators.py:55-68 | every returned entry is a non-empty ASCII alphanumeric word, possibly followed by one newline |
| Validators.JsonListIdempotent | temboardagent/validators.py:9 | jsonlist accepts the list it returns and returns it again |
| Validators.Port | temboardagent/validators.py:73-79 | the result is the integer given or parsed; it raises "Port out of range" iff it is below 0 or above 65635, and raises on text int() refuses |
| Validators.PortOfNumeral | temboardagent/validators.py:74 | a decimal numeral is checked like the number it denotes |
| Validators.ParseIntSkipsBlanksAfterSign | temboardagent/validators.py:74 | `int()` reads a sign, whitespace, then digits as the signed value of the digits |
| Validators.PortSkipsBlanksAfterSign | temboardagent/validators.py:74-78 | `port("+ 80")` is 80, and `port("- 80")` is out of range |
| Validators.PortAcceptsAboveTcpRange | temboardagent/validators.py:76 | the bound as written accepts 65600, which is not a TCP port |
| Validators.TcpPort | temboardagent/validators.py:76 | with the intended bound every accepted port fits in 16 bits |
| Validators.TcpPortAcceptsExactly16Bit | temboardagent/validators.py:76-77 | the corrected check accepts an integer iff it is in 0..65535 |
| Validators.PortIdempotent | temboardagent/validators.py:9 | port accepts what it returns |
| Validators.LogLevel | temboardagent/validators.py:82-86 | accepted iff the upper-cased name is a known level, which is the result; otherwise "unkown log level" |
| Validators.LogMethod | temboardagent/validators.py:89-92 | returns the input unchanged iff it is a known method; otherwise "unkown method" |
| Validators.SyslogFacility | temboardagent/validators.py:95-98 | returns the input unchanged iff it is a facility name; otherwise "unkown syslog facility" |
| Validators.LogLevelIdempotent | temboardagent/validators.py:9 | loglevel accepts what it returns |
| Validators.LogMethodIdempotent | temboardagent/validators.py:9 | logmethod accepts what it returns |
| Validators.SyslogFacilityIdempotent | temboardagent/validators.py:9 | syslogfacility accepts what it returns |
| MaintenanceRoutes.VacuumModeExactly | temboardagent/plugins/maintenance/__init__.py:36 | on newline-free text the mode type matches exactly standard, full, freeze and analyze; each mode also matches with one trailing newline |
| MaintenanceRoutes.MatchedModeInStatement | temboardagent/plugins/maintenance/__init__.py:36 | a mode passing the type reaches the VACUUM statement upper-cased, as its only option |
| MaintenanceRoutes.ParsedMatchesTimestampUtc | temboardagent/plugins/maintenance/__init__.py:37 | a string strptime accepts passes the type once upper-cased, and as it is iff its T and Z are upper-case |
| MaintenanceRoutes.TimestampTypeIsCaseSensitive | temboardagent/plugins/maintenance/__init__.py:37 | a timestamp with lower-case t and z is read by strptime and refused by the type |
| MaintenanceRoutes.FormatMatchesTimestampUtc | temboardagent/plugins/maintenance/__init__.py:37 | the strftime of any datetime passes the timestamp type |
| MaintenanceRoutes.TimestampTypeIgnoresRanges | temboardagent/plugins/maintenance/__init__.py:37 | a thirteenth month passes the type, and strptime refuses it |
| MaintenanceRoutes.TimestampTypeAllowsNewline | temboardagent/plugins/maintenance/__init__.py:37 | a timestamp plus a newline passes the type, and strptime refuses it |
| MaintenanceRoutes.TaskIdMatchesVacuumId | temboardagent/plugins/maintenance/__init__.py:38 | every id schedule_vacuum builds passes the vacuum-id type |
| MaintenanceRoutes.CheckParameter | temboardagent/plugins/maintenance/__init__.py:80-84 | a missing parameter is refused as missing, a non-matching one as malformed; it is returned unchanged iff present and matching |
| MaintenanceRoutes.MatchesVacuumMode | temboardagent/plugins/maintenance/__init__.py:36 | T_VACUUM_MODE: one of the four mode names, under Python's `$`; VacuumModeExactly states the set |
| MaintenanceRoutes.MatchesTimestampUtc | temboardagent/plugins/maintenance/__init__.py:37 | T_TIMESTAMP_UTC: the digit shape with upper-case T and Z, under Python's `$` |
| MaintenanceRoutes.MatchesVacuumId | temboardagent/plugins/maintenance/__init__.py:38 | T_VACUUM_ID: eight lower-case hex digits, under Python's `$` |
| MaintenanceRoutes.PostVacuumArgs | temboardagent/plugins/maintenance/__init__.py:79-98 | accepted iff the three names are present and valid, a datetime or mode is valid when sent, and the clock's year is at least 1900; the names are kept, datetime defaults to now formatted and mode to "standard", and both then pass their types; the error is the first failing check |
| MaintenanceRoutes.OptionalParametersDefault | temboardagent/plugins/maintenance/__init__.py:88-98 | with neither datetime nor mode sent, the request is accepted with both defaults |
| MaintenanceRoutes.EarlyClockRefusesPost | temboardagent/plugins/maintenance/__init__.py:92-93 | the default is formatted even when a datetime is sent, so a clock before 1900 refuses the request |
| MaintenanceRoutes.PostVacuum | temboardagent/plugins/maintenance/__init__.py:76-102 | a refused parameter is reported; otherwise the outcome is schedule_vacuum's on the checked arguments |
| MaintenanceRoutes.DefaultDatetimeSchedules | temboardagent/plugins/maintenance/__init__.py:92-93 | the default datetime always parses, and the start is now on its whole second plus one microsecond |
| MaintenanceRoutes.NewlineDatetimeGives500 | temboardagent/plugins/maintenance/__init__.py:88-102 | a sent datetime ending in a newline passes the check, and the request then fails with 500 |
| MaintenanceRoutes.DeleteVacuum | temboardagent/plugins/maintenance/__init__.py:110-113 | the list request goes first; the route's id goes unchanged into the one cancel message, which is sent iff the listing succeeds and shows the id; the result is {"response": "ok"} iff it is sent without raising; otherwise it is cancel's error: 500 for a failed list request, the listing's own error, 404 for an unlisted id, 500 when sending the cancel raises |

## Left out

- The SQL query functions of functions.py (lines 15-447) and `get_postgres` are left out. They are Postgres I/O. `schedule_vacuum` and `vacuum` see the database only through the row count of the existence query and whether execution raises. Which database the connection goes to is not modelled.
- The task manager's socket, queue, worker pool and recovery are not part of this model. The model only sees the replies it gives to list, schedule and cancel requests.
- The numeric values of the task manager's message types, and `authkey`, are not modelled.
- MD5 is a parameter. The model assumes only that a digest is 32 lower-case hex digits, and it does not model the UTF-8 encoding of the key. `pickle(app.config)` is an opaque byte string, and an exception raised while pickling is not modelled.
- Logging calls are not modelled.
- `datetime.utcnow()` is a parameter of `post_vacuum`.
- UtcTime.Parse: models strptime on zero-padded fields only. Python's strptime also accepts fields written with fewer digits or padded with a space; the timestamp type excludes such text before `schedule_vacuum` is reached. The case-insensitive `T` and `Z` are modelled.
- UtcTime.Format: writes the year on four digits. It is the text `strftime` writes when it does not raise; below 1900, where a C library might print fewer digits, Python 2's `strftime` raises instead (UtcTime.Strftime), so the difference is never observed.
- Validators.Boolean: `raw in (True, False)` also lets the integers 0 and 1 through unchanged. The model gives `boolean` either a bool or a string.
- Validators.StrToBool: the message quotes the lower-cased text with plain single quotes. It does not model `repr` escaping.
- Validators.Port: the `int()` message is shortened to "invalid literal for int()". Text parsing covers surrounding whitespace, an optional sign, whitespace after the sign (which Python 2's `int()` skips), and ASCII digits. Python 2's `int()` also reads non-ASCII decimal digits in a unicode string, which is not modelled (underscores are a Python 3 addition). A float argument, which `int()` truncates, is not modelled: the input is an integer or text.
- Validators.ToStr: a nested list's items are written with `str`, not `repr`. A non-ASCII unicode string, on which Python 2's `str()` raises, is not modelled.
- `json.loads` is a parameter of `jsonlist`.
- `dir_`, `file_` and `writeabledir` are not modelled. They are filesystem checks.
- The contents of `logging._levelNames`, `LOG_METHODS` and `SysLogHandler.facility_names` are parameters.
- The case mapping is ASCII only, as Python 2 applies it to byte strings.
- `T_OBJECTNAME` and `validate_parameters` are not part of this model.
  - The object-name check is a parameter.
  - A failed check is a `ParamError` naming the parameter. Its HTTP code and message are not modelled.
  - Post parameters are modelled as strings. Checking the `str()` of a non-string JSON value is not modelled.
- The route table and router are not modelled: the `get_*` routes, `scheduled_vacuum`, `vacuum_worker`'s unpickling, and `MaintenancePlugin.load`/`unload`. `delete_vacuum` receives the captured URL groups as they are.
- temboardagent/pluginsmgmt.py and the sample plugins are not part of this model.

## Findings

| source | as written | input that shows it | evidently intended | confidence | as-written member | corrected member |
|---|---|---|---|---|---|---|
| temboardagent/validators.py:76 | `port` refuses only numbers above 65635 | `port(65600)` returns 65600 | refuse numbers above 65535, the largest TCP port | not executed | Validators.PortAcceptsAboveTcpRange | Validators.TcpPortAcceptsExactly16Bit |
