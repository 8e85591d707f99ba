# FISIOLIFE appointment portal: a Dafny model of the booking core

This project models the core of a small Flask application for a physiotherapy clinic.
Visitors book an appointment (`cita`) for a service through a public form. An administrator
lists the appointments and moves each one through its status values. At start-up the
application seeds a fixed catalog of services and one administrator account.

The model covers six parts:

- **Python string operations** (`strings.dfy`, module `Strings`): `str.strip`, `str.lower`,
  `str.startswith`, `str.replace(old, new, 1)` and base-10 `int()`. The routes apply `strip`,
  `lower` and `int` to form input; `_normalize_db_url` applies `startswith` and `replace` to
  `DATABASE_URL`.
- **Timestamps** (`datetime.dfy`, module `DateTime`): a timestamp is a record of year,
  month, day, hour and minute, with `datetime`'s range checks (days per month, leap years,
  years 1 to 9999). The module holds:
  - a strict reader for the form's `%Y-%m-%dT%H:%M`;
  - the one-hour block of a booking, i.e. `replace(minute=0)` and `+ timedelta(hours=1)`,
    including the `OverflowError` past 9999-12-31;
  - a minute count, after Python's own day arithmetic, that shows the field order is
    chronological.
- **Tables** (`models.dfy`, module `Models`): `Usuario`, `Servicio` and `Cita` as datatypes,
  with the `estado` and `rol` enumerations, their defaults and the uniqueness constraints.
- **Database** (`store.dfy`, module `Store`): a class `Database` holding the three tables as
  sequences in insertion order, plus the next `citas` key. Its methods are the writes the
  routes and the seed commit.
- **Routes** (`routes.dfy`, module `Routes`):
  - the booking request `agendar_cita`, with its early returns, its conflict query over the
    hour block and the insert;
  - the status change `cambiar_estado_cita`;
  - the ordering of the administrator's list `admin_citas`.

  Each route is a function stating what the request does. The two routes that write,
  `agendar_cita` and `cambiar_estado_cita`, are also methods that take the `Database` and are
  proved to do exactly what their function says. The listing only reads, so it is a function
  alone.
- **Start-up** (`appinit.dfy`, module `AppInit`):
  - `_normalize_db_url`;
  - `_seed_initial_data`, as a specification function `Seed` and a method. The method follows
    the code's loops, its pending rows and its `need_commit` flag.

Inputs the code reads from its surroundings become parameters:

- whether a session user exists (`loggedIn`);
- whether both tables exist (`tablesExist`);
- the environment variables `ADMIN_EMAIL`, `ADMIN_NOMBRE` and `ADMIN_PASSWORD` (`Env`);
- the bcrypt hash of `ADMIN_PASSWORD`, which has a random salt (`generatedHash`);
- whether the notification mail fails (`mailFails`). It is swallowed by the code, so it
  reaches neither the table nor the result.

Behaviour of the code worth noting:

- The booking form's free-text message is never read by `agendar_cita`, so a stored cita
  always has `mensaje = None`.
- `agendar_cita` does not check that `servicio_id` names an existing service.
- The seed adds the missing catalog ids and keeps every other stored service, so after it
  the table holds exactly the seven catalog services only when it held no others before.
- The administrator's email is taken from the environment as it is; it is not
  case-normalised.
- A missing field is reported with one message for all five fields, which does not name the
  field.

## Model

| member | source | states |
|---|---|---|
| Strings.Strip | app/routes.py:42-45 | `strip()` returns the slice from the first to the last non-space character (Python's `isspace` set); everything outside it is white space |
| Strings.StripEmptyIff | app/routes.py:48 | a stripped field is empty exactly when the raw field is all white space |
| Strings.StripIdempotent | app/routes.py:42-45 | stripping twice equals stripping once |
| Strings.Lower | app/routes.py:43 | `lower()` keeps the length, maps each upper-case ASCII letter to its lower-case letter and keeps every other character |
| Strings.FindFirst | app/__init__.py:28 | the position found holds an occurrence of the pattern, no earlier position does, and `None` means no position does |
| Strings.ReplaceFirst | app/__init__.py:28 | `replace(pat, rep, 1)` leaves a string without the pattern unchanged; otherwise it keeps everything before the first occurrence, puts `rep` in its place and keeps everything after it |
| Strings.ReplaceFirstAtStart | app/__init__.py:27-28 | on a string that starts with the pattern, `replace(pat, rep, 1)` swaps exactly that prefix for `rep` and keeps the rest |
| Strings.IntStrip | app/routes.py:77 | the white space `int()` skips is dropped from both ends: Python's `isspace` set without U+001C to U+001F; everything outside the slice is such white space |
| Strings.ParseInt | app/routes.py:77 | `int()` succeeds exactly on a string that, once `int()`'s own white space is dropped from both ends (Python's `isspace` set without the separators U+001C to U+001F), is a non-empty digit group (single underscores between digits allowed), optionally preceded by `+` or `-`, and yields that group's value with the sign applied |
| Strings.ParseIntSeparatorIsNotSpace | app/routes.py:77 | `int()` skips a leading no-break space but fails on a leading U+001C, which `strip()` would have dropped |
| Strings.ParseIntOfNegative | app/routes.py:77 | `int()` reads `-` followed by any digit group (leading zeros and single underscores included) as that group's value negated |
| Strings.ParseIntOfPositive | app/routes.py:77 | `int()` reads `+` followed by any digit group as that group's value |
| Strings.ParseIntOfNatToString | app/routes.py:77 | `int()` reads the decimal spelling of every natural number back as that number |
| DateTime.ParseFechaHora | app/routes.py:53 | an accepted `fecha_hora` is a valid datetime whose fixed-width spelling is exactly the input |
| DateTime.ParseFormat | app/routes.py:53 | the spelling of every valid datetime is accepted and read back as that datetime |
| DateTime.ParseFechaHoraIff | app/routes.py:52-56 | the parser yields `t` exactly when `t` is valid and the input is its spelling |
| DateTime.BeforeIsChronological | app/routes.py:63-66 | the field-by-field order of datetimes agrees with their minute count from 0001-01-01, the order the database compares `fecha_hora` by |
| DateTime.BlockStart | app/routes.py:59 | `replace(minute=0)` stays in the same clock hour at minute 0; for a valid time the result is valid, not later than it, and not later than any valid time of that hour |
| DateTime.AddHour | app/routes.py:60 | `+ timedelta(hours=1)` yields a later valid datetime with the same minute, and fails (`OverflowError`) exactly at 9999-12-31 23:xx |
| DateTime.AddHourIsSixtyMinutes | app/routes.py:60 | the next hour is exactly sixty minutes later, across day, month and year ends |
| DateTime.InBlockIffSameHour | app/routes.py:59-66 | a valid datetime lies in `[hora_inicio, hora_inicio + 1h)` exactly when it has the requested time's date and hour |
| Models.ParseEstado | app/routes.py:124 | the membership test accepts exactly the four status names and yields the status of that name |
| Models.ParseEstadoName | app/models.py:39 | every status is accepted under its own name and under no other |
| Models.ParseRol | app/models.py:12 | exactly `admin` and `staff` are roles |
| Models.CountEmailUnique | app/models.py:10 | under the unique email constraint an email belongs to one user when present and to none otherwise |
| Store.Database.constructor | app/models.py:5-40 | the freshly created tables are empty and meet every key constraint |
| Store.Database.InsertCita | app/routes.py:80-81 | the new row is appended with the next key; the other tables and the existing rows are unchanged and the constraints still hold |
| Store.Database.SetEstado | app/routes.py:129-130 | only the `estado` of the given row changes |
| Store.Database.CommitSeed | app/__init__.py:145-146 | the pending users and services are appended and the constraints still hold |
| Routes.FieldsPresentIff | app/routes.py:42-48 | the completeness check holds exactly when each text field strips to a non-empty value and `servicio_id` is present and non-empty |
| Routes.HasCitaInBlock | app/routes.py:63-66 | the conflict query finds a row exactly when some stored cita lies in the block |
| Routes.Booking | app/routes.py:41-81 | a request is `MissingFields` exactly when a field is empty or only white space, and `BadFechaFormat` exactly when the time is complete but does not parse. A booked cita has the next key, the stripped fields, the lower-cased email, the un-truncated parsed time, `int(servicio_id)`, no message and status `pendiente` (the column default), and no stored cita lies in its block |
| Routes.BookingAt | app/routes.py:59-81 | after parsing, a request fails only with the block overflow, a taken slot or a non-integer `servicio_id`; it fails with the overflow exactly when the next hour does not exist; a booked row is built from the form as the code builds it |
| Routes.BlockOverflowIff | app/routes.py:59-60 | a complete request whose time parses escapes with `OverflowError` exactly when the hour after its block start does not exist |
| Routes.BadServicioIdIff | app/routes.py:59-77 | a complete request whose time parses escapes with `ValueError` from `int(servicio_id)` exactly when the next hour exists, no stored cita shares its hour and `servicio_id` is not an integer literal |
| Routes.SlotTakenIffSameHour | app/routes.py:62-70 | a complete, well-formed request is turned away as taken exactly when some stored cita is in the same clock hour, whatever its service or status |
| Routes.HasCitaInBlockIffSameHour | app/routes.py:63-66 | the conflict query over the block finds a row exactly when a row shares the requested clock hour |
| Routes.BookedIff | app/routes.py:48-81 | a request is booked exactly when its fields are complete, its time parses, the next hour exists, no stored cita shares its hour and `servicio_id` is an integer |
| Routes.BookingKeepsNoDoubleBooking | app/routes.py:63-81 | if no two stored citas share an hour, none do after a booking |
| Routes.BookingIgnoresServicioAndEstado | app/routes.py:62-66 | the outcome of a request depends only on the stored times: a cancelled cita occupies its hour like a pending one |
| Routes.QuarterPastAndQuarterToConflict | app/routes.py:59-70 | next to a stored 09:15 cita, a complete request for 09:45 the same day is turned away as taken |
| Routes.OneMinuteApartAcrossTheHour | app/routes.py:59-81 | next to a stored 09:59 cita, a complete request for 10:00 the same day is booked at 10:00 |
| Routes.ScenarioTimes | app/routes.py:53 | "2025-03-10T09:45" and "2025-03-10T10:00" parse to those times |
| Routes.AgendarCita | app/routes.py:36-98 | the method's outcome is `Booking` of the old table. A booked cita is appended with the next key; on a rejection nothing changes; the other tables are untouched; the no-double-booking property is kept; a failing mail changes nothing |
| Routes.FindCita | app/routes.py:128 | `query.get` yields the first row with the key, and `None` exactly when no row has it |
| Routes.CambioEstado | app/routes.py:118-132 | without a session user, or with a name outside the four statuses, or for a missing key, nothing changes (each with its own outcome). Otherwise one row with that key gets the named status and nothing else changes |
| Routes.CambioEstadoOnlyTarget | app/routes.py:128-129 | with unique keys, only the target row changes and only in its `estado`; every other row and column is as before |
| Routes.CambioEstadoKeepsTimes | app/routes.py:129 | a status change keeps every time and every key, hence unique keys, well-formed times and no double booking |
| Routes.CambiarEstadoCita | app/routes.py:118-132 | the method's outcome and new table are `CambioEstado` of the old table; the other tables and the key counter are untouched |
| Routes.InsertNewestFirst | app/routes.py:115 | inserting into a newest-first list keeps it newest first and adds exactly that row |
| Routes.SortNewestFirst | app/routes.py:115 | `ORDER BY fecha_hora DESC` gives the same rows, each as often, newest first |
| Routes.AdminCitas | app/routes.py:111-116 | without a session user the list is refused; otherwise it holds every stored cita, each as often, newest first |
| AppInit.NormalizeDbUrl | app/__init__.py:23-29 | a leading `postgres://` becomes `postgresql+psycopg2://` and the rest is kept verbatim; the empty string and every other URL come back unchanged |
| AppInit.NormalizeDbUrlIdempotent | app/__init__.py:23-29 | normalising a normalised URL changes nothing |
| AppInit.CatalogKeys | app/__init__.py:88-96 | the seed catalog has seven services with ids 1 to 7, each once |
| AppInit.HasServicio | app/__init__.py:116 | `Servicio.query.get(sid)` finds a row exactly when some service has that id |
| AppInit.HasEmail | app/__init__.py:128 | the email query finds a row exactly when some user has that email |
| AppInit.HasUsuarioId | app/__init__.py:136 | some user holds the key exactly when it is among the user ids |
| AppInit.PendingAdmin | app/__init__.py:128-143 | no administrator is added exactly when a user already has the admin email; otherwise exactly the one administrator row is added |
| AppInit.AdminDefaults | app/__init__.py:123-142 | with no environment variables set, or with only `ADMIN_PASSWORD` set and empty, the administrator is user 1, "Administrador", admin@fisiolife.com, with the fixed hash and role `admin` |
| AppInit.AdminUnsetPasswordUsesFixedHash | app/__init__.py:129-133 | an unset or empty `ADMIN_PASSWORD` gives the administrator the fixed hash, whatever `ADMIN_EMAIL` and `ADMIN_NOMBRE` say |
| AppInit.AdminFromEnv | app/__init__.py:123-142 | with all three variables set and a non-empty password, the administrator is user 1 with the given name and email, the freshly generated hash and role `admin` |
| AppInit.MissingServicios | app/__init__.py:113-120 | the entries added are exactly the catalog entries whose id no stored service holds |
| AppInit.MissingServiciosEmptyIff | app/__init__.py:113-120 | nothing is added exactly when every catalog id is already present |
| AppInit.MissingFromEmpty | app/__init__.py:107-112 | against an empty table the whole catalog is added, in order |
| AppInit.MissingServiciosKeys | app/__init__.py:113-120 | the added services keep the service ids unique |
| AppInit.PendingServicios | app/__init__.py:99-120 | both loops of the services part yield exactly the missing entries, and ask for a commit on an empty table or when something was added |
| AppInit.Seed | app/__init__.py:71-146 | the seed does nothing when the tables are missing. It never changes or removes existing rows: they stay a prefix. It adds only catalog entries whose id was absent, and at most the admin user, only when the admin email was absent. A failed commit (user key 1 taken) leaves both tables as they were |
| AppInit.SeedCompletes | app/__init__.py:88-146 | after a seed that commits or finds nothing to commit, every catalog id has a service and a user has the admin email |
| AppInit.SeedOnEmptyServicios | app/__init__.py:107-112 | on an empty service table a committed seed stores exactly the seven catalog services, ids 1 to 7 |
| AppInit.SeedOnEmpty | app/__init__.py:107-112 | on an empty service table a committed seed stores exactly the given list |
| AppInit.SeedKeepsKeys | app/__init__.py:113-143 | the seed keeps user ids, user emails and service ids unique |
| AppInit.SeedAdminExactlyOnce | app/__init__.py:123-143 | after a seed that commits or finds nothing to commit, exactly one user has the admin email |
| AppInit.SeedNothingToCommitIff | app/__init__.py:99-146 | nothing is committed exactly when the service table is non-empty, every catalog id is present and the admin email is present |
| AppInit.SeedIdempotent | app/__init__.py:71-146 | seeding twice leaves the same tables as seeding once, also when the second start-up generates a different password hash |
| AppInit.SeedWith | app/__init__.py:71-146 | the method's outcome and new tables are `Seed` of the old tables; `citas` is untouched and the constraints still hold |
| AppInit.SeedInitialData | app/__init__.py:71-146 | the same, with the application's catalog |

## Left out

- Login, logout and the session itself: they are bcrypt checks and Flask session state. The session is the parameter `loggedIn`. `app/auth/routes.py` is not part of this model.
- Mail sending: its only effect is an exception the route swallows. It is the parameter `mailFails`, which has no effect.
- Template rendering, `flash`, `redirect` and the 404 content-negotiation handler: these are HTTP presentation. The outcomes stand for them.
- Service CRUD (`admin_servicios` and the routes after it): thin form-to-row copying.
- `_compute_sqlalchemy_uri`, `_create_tables_if_sqlite` and the app wiring: they depend on environment variables and the file system. The inspector's answer is the parameter `tablesExist`.
- The `try` around the service count in the seed, which aborts the seed when the table is not accessible: this is not modelled beyond `tablesExist`.
- The race between the conflict query and the insert: the model is sequential.
- The `creado_en` columns, and seconds and microseconds: the clock is left out, and the form's time has no seconds.
- Foreign keys and column lengths: whether the store enforces them depends on the database engine. A cita's `servicio_id` is not checked against `servicios`, just as the route does not check it.
- Routes.Booking: `servicio_id` is an unbounded integer, but its column is `db.Integer`. A value outside the engine's integer range (32 bits on PostgreSQL, 64 bits on SQLite) makes the commit fail and nothing is stored, while the model reports the request as booked. The model has no engine, so it leaves that range out.
- `Cita.email` and `Cita.telefono` are nullable in the table, but the route always fills them. They are plain strings here.
- DateTime.ParseFechaHora: stricter than `strptime`. It requires two digits for month, day, hour and minute and an upper-case `T`. `strptime` also accepts single digits (and a space-padded day) and a lower-case `t`, and this model rejects those as a bad format. `strptime` matches its digits with `\d`, which also takes non-ASCII decimal digits (full-width digits, for example) and reads them by their value; the model accepts only ASCII digits.
- Strings.Lower: lower-cases ASCII letters only. Python's `lower` also maps non-ASCII letters.
- Strings.ParseInt: accepts ASCII digits only. Python's `int()` also accepts other Unicode decimal digits.
- Strings.ParseInt: has no limit on the number of digits. Since CPython 3.11 (and the 3.7.14, 3.8.14, 3.9.14 and 3.10.7 security releases), `int()` raises `ValueError` on a decimal string of more than 4300 digits, leading zeros included; the limit depends on the interpreter version and on `sys.set_int_max_str_digits`. A `servicio_id` such as 4300 zeros followed by `1` therefore escapes with `ValueError` in `agendar_cita` and nothing is stored, while the model books it.
- Routes.SortNewestFirst: the order among rows with the same `fecha_hora` is left open, as `ORDER BY` leaves it to the database. The contract says nothing about it; the function happens to put such rows in the reverse of their stored order.
- Store.Database.InsertCita: the new key comes from a counter that only grows. It stands for the autoincrement key the database hands out.
- AppInit.SeedWith: a failed commit is the outcome `CommitFailed` with both tables unchanged. In the code it is an `IntegrityError` that escapes and stops the start-up.
