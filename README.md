# Event manager API — a verified model of its rules

The event manager API is a FastAPI/SQLAlchemy service in which colleges,
users, students, events and event registrations are kept in PostgreSQL
tables. This project models its rule-bearing core in Dafny:

- the database as an in-memory store: a `Db` object holding one sequence
  per table, in insertion order, and one serial counter per table. Its
  invariant `Db.Valid` says that the primary keys and unique columns are
  distinct, that every foreign key names an existing row, and that every
  stored event has its end after its start and a capacity of at least 1.
  It also holds the two rules the registration handler keeps: at most one
  registration per (user, event) pair, and no event holds more
  registrations than its capacity. Every handler below preserves it;
- users as objects whose fields the handlers assign in place
  (`is_active`, `password_hash`); the other rows are values;
- the cascade rules of the ORM relationships (`Db.DeleteUser`,
  `Db.DeleteEvent`, `Db.DeleteCollege`), written as sequences of
  single-table deletes in which every step keeps the store valid;
- the password rule of `User.set_password` / `User.verify_password`: UTF-8
  bytes go to bcrypt if they fit in 72 bytes; otherwise the 64-character
  hex SHA-256 digest goes instead. bcrypt and SHA-256 are a record of
  functions (`Passwords.Crypto`) constrained by three laws: a digest has 32
  bytes, a bcrypt hash is ASCII, and `checkpw(p, hashpw(p, s))` holds;
- the routers for registrations, users, events and colleges. Each is a
  method (when it changes the store) or a function (when it only reads
  it), returning `Ok(...)` or `Err(...)`. The error kinds are 404 (with the
  missing entity), 400 (with the reason), 403 and 422;
- the pydantic field constraints of `app/schemas.py` as validity
  predicates;
- the `full_name` split and join of one Alembic revision, with
  PostgreSQL's `POSITION`, `SPLIT_PART`, `SUBSTRING` and `CONCAT`;
- `Settings.allowed_origins_list`, with Python's `str.split(",")` and
  `str.strip()`.

The caller of a handler (the user `get_current_user` resolves) is a
parameter. So are the bcrypt salt, the current time and the current year.
Time is one integer clock.

Two handlers cannot succeed as written; the model describes what they
evidently intend:

- `create_user` parses its body into `UserCreate` (app/routers/users.py:27),
  which declares `email` (required), `full_name`, `password` and
  `is_admin` (app/schemas.py:10-17). pydantic drops the fields it does not
  declare, so the handler's read of `user_data.username`
  (app/routers/users.py:34) raises `AttributeError`, a 500, on every
  request that passes validation, and a body without `email` is refused
  with 422 before the handler runs. `Users.Signup` carries the fields the
  handler reads (`username`, `email`, `first_name`, `last_name`,
  `password`), and `Users.CreateUser` is the handler as it reads.
  `Schemas.ParseUserCreate` models the schema as declared.
- `app/routers/colleges.py` imports `CollegeCreate` and `CollegeResponse`
  from `app/schemas.py` (line 7), which defines neither, so importing the
  module raises `ImportError` and no college handler can be loaded.
  `app/main.py` (lines 28-30) mounts neither the users nor the colleges
  router. `Colleges.CollegeCreate` carries the fields `create_college`
  reads, and the college handlers are modelled as they read.

Points where the model follows the code rather than the declared schemas:

- College administrators are created with the global `is_admin = True`,
  so they pass every admin check, the users router's included.
- `EventUpdate` is declared, but no event handler uses it. Only its
  field constraints are modelled.
- Nothing in the table definitions makes a (user, event) registration
  unique. The register handler's duplicate check is the only thing that
  keeps it so. The model proves that this check, together with the
  capacity check, keeps both invariants.
- `ORDER BY start_time` leaves the order of events with equal start
  times unspecified. `Events.SortByStart` uses one fixed stable order.
- `list_users` and `list_colleges` have no `ORDER BY` at all, so
  PostgreSQL may return their rows in any order. The model pages over
  the tables in insertion order.

## Model

| member | source | states |
|---|---|---|
| Common.Filter | app/routers/users.py:71-72 | a SQL WHERE: no more rows than the input, and a row is kept exactly when it is in the input and satisfies the predicate |
| Common.Page | app/routers/users.py:74 | `OFFSET skip LIMIT limit`: the page has `min(limit, n - skip)` rows (none past the end) and its row `i` is row `skip + i` of the input |
| Passwords.Utf8Encode | app/models.py:49 | the UTF-8 encoding has between one and four bytes per character |
| Passwords.Utf8EncodeAscii | app/models.py:53 | an ASCII string encodes to one byte per character, equal to its code point |
| Passwords.HexDigest | app/models.py:52 | `hexdigest()` gives two lower-case hex digits per digest byte |
| Passwords.AsciiDecode | app/models.py:57 | decoding ASCII bytes gives one character per byte, with the same code |
| Passwords.AsciiRoundTrip | app/models.py:57 | re-encoding a decoded bcrypt hash (line 67) gives back the same bytes |
| Passwords.PreHash | app/models.py:49-53 | at most 72 bytes; the UTF-8 password when it fits in 72 bytes, otherwise the 64 bytes of the hex SHA-256 digest of its encoding |
| Passwords.StoredHash | app/models.py:56-57 | the stored `password_hash` is an ASCII string |
| Passwords.Matches | app/models.py:61-68 | `checkpw` of the pre-hashed password against the UTF-8 bytes of the stored hash; with `SetThenVerify`, true for every stored hash of that password |
| Passwords.SetThenVerify | app/models.py:46-68 | the hash stored for `p` under any salt verifies against `p`, for passwords of every length |
| Passwords.Utf8BytesBelowF8 | app/models.py:49 | no byte of a UTF-8 encoding is 0xF8 or above |
| Passwords.Utf8Injective | app/models.py:49 | two strings with the same UTF-8 encoding are equal |
| Passwords.HexPair | app/models.py:52 | one byte as two lower-case hex digits whose values, high digit first, spell the byte |
| Passwords.HexDigestSpells | app/models.py:52 | digits `2i` and `2i + 1` of `hexdigest()` are the hex pair of digest byte `i` |
| Passwords.HexDigestInjective | app/models.py:52 | two digests with the same hex string are equal |
| Passwords.MatchesExactly | app/models.py:59-68 | with a bcrypt that accepts only the hashed input, the hash stored for `p` accepts `q` exactly when `q` and `p` have the same pre-hash bytes |
| Passwords.DigestAlsoAccepted | app/models.py:49-53 | for every password longer than 72 bytes, its hex SHA-256 digest is a different password that its stored hash accepts |
| Passwords.SeparatedPreHash | app/models.py:49-53 | corrected pre-hash: at most 72 bytes; short passwords as before, long ones as the marker byte 0xFF followed by the 64 digest bytes |
| Passwords.SeparatedPreHashInjective | app/models.py:49-53 | two passwords with the same corrected pre-hash are equal unless their SHA-256 digests collide |
| Passwords.SeparatedSetThenVerify | app/models.py:46-68 | with the corrected pre-hash, the stored hash of `p` still accepts `p` |
| Passwords.SeparatedRejects | app/models.py:46-68 | with the corrected pre-hash and an exact bcrypt, the stored hash of `p` rejects every other password whose digest does not collide with `p`'s |
| Models.User.constructor | app/models.py:28-39 | a new user object has the given columns, no id yet and an empty hash |
| Models.User.SetPassword | app/models.py:46-57 | only `password_hash` changes, to the bcrypt hash of the pre-hashed password, and the password then verifies |
| Models.User.VerifyPassword | app/models.py:59-68 | accepts every password whose stored hash is its bcrypt hash under some salt |
| Models.RegistrationsOf | app/models.py:104 | `Event.registrations` holds exactly the rows whose `event_id` is the event's id |
| Models.RegisteredCount | app/models.py:106-108 | the count is at most the table size, and is 0 exactly when no row refers to the event |
| Models.IsFull | app/models.py:110-114 | never full without a capacity, whatever the registrations; with one, not full exactly when one more registration still fits (`count < capacity`) |
| Models.RegisteredCountAppend | app/models.py:106-108 | inserting a registration raises the count of its own event by one and of no other event |
| Models.RegisteredCountFilter | app/models.py:106-108 | deleting registrations never raises a count |
| Models.RegisteredCountRemoveAt | app/models.py:106-108 | deleting one registration lowers the count of its own event by one and of no other event |
| Models.Db.FindEvent | app/routers/events.py:73 | finds an event with that id, and none exactly when no event has that id |
| Models.FindEventIn | app/routers/registrations.py:23 | finds an event with that id, and none exactly when no event has that id |
| Models.HasUsername | app/routers/users.py:34 | some stored user has exactly that username (also the check at app/routers/colleges.py:45-46) |
| Models.FindUser | app/routers/users.py:107 | finds the position of a user with that id, and none exactly when no user has that id |
| Models.Db.InsertRegistration | app/routers/registrations.py:55-56 | appends the row, takes the next registration id, keeps the store valid, changes nothing else |
| Models.Db.InsertEvent | app/routers/events.py:40-41 | appends the event, takes the next event id, changes nothing else; the new event has no registrations |
| Models.Db.InsertCollege | app/routers/colleges.py:64-65 | appends a college with a fresh code, takes the next college id, changes nothing else |
| Models.Db.InsertUser | app/routers/users.py:51-52 | appends a user with a fresh username, gives it the next user id, changes no other column or table |
| Models.Db.DeleteRegistrations | app/models.py:42 | deletes exactly the registrations a WHERE clause rejects, keeping the store valid |
| Models.Db.DeleteEvents | app/models.py:43 | deletes exactly the events a WHERE clause rejects, once none of them has registrations left |
| Models.Db.DeleteStudents | app/models.py:44 | deletes exactly the student profiles a WHERE clause rejects |
| Models.Db.DeleteColleges | app/models.py:25 | deletes exactly the colleges a WHERE clause rejects, once none of them has students left |
| Models.Db.DeleteUserRow | app/models.py:42-44 | deletes the user row at one position, once no row refers to it |
| Models.Db.DeleteEvent | app/models.py:104 | deleting an event deletes exactly its registrations with it, and nothing else |
| Models.Db.DeleteCollege | app/models.py:25 | deleting a college deletes exactly its student profiles with it; users, events and registrations stay |
| Models.Db.DeleteUser | app/models.py:42-44 | deleting a user deletes the user, its student profile, the events it created, its own registrations and every registration for those events, and nothing else |
| Models.CreatedByAt | app/models.py:43 | every stored event is among the created events of its creator |
| Models.RemoveUserKeys | app/models.py:31-32 | deleting one user keeps ids and usernames unique and removes exactly that id |
| Registrations.FindRegistration | app/routers/registrations.py:31-34 | the first registration of that user for that event, and none exactly when there is no such row |
| Registrations.RegisterCheck | app/routers/registrations.py:23-47 | the outcome of the three checks in order: 404 exactly for a missing event, 400 "already registered" exactly for an existing event with a row for the pair, 400 "full" exactly for an existing and full event without one |
| Registrations.RegisterKeepsInvariants | app/routers/registrations.py:43-57 | a row the checks admit keeps at most one registration per pair and every event within its capacity |
| Registrations.SecondRegistrationRefused | app/routers/registrations.py:31-40 | after a successful registration, registering the same user for the same event again is refused as a duplicate |
| Registrations.RegisterForEvent | app/routers/registrations.py:14-62 | refused exactly when a check fails, with that check's error and the store untouched; otherwise exactly one row for (caller, event) with the next id, that event's count up by one, and nothing else changed |
| Registrations.UnregisterRemovesPair | app/routers/registrations.py:75-86 | deleting the pair's row leaves no row for that pair |
| Registrations.UnregisterFromEvent | app/routers/registrations.py:66-92 | 404 exactly when the caller has no registration for the event (which need not exist); otherwise exactly that row goes and nothing else changes |
| Registrations.GetEventRegistrations | app/routers/registrations.py:96-124 | 404 exactly for a missing event; 403 exactly when the caller is neither an admin nor its creator; otherwise exactly the rows with that event id |
| Registrations.GetMyRegistrations | app/routers/registrations.py:128-139 | exactly the registrations whose user is the caller |
| Users.RequireAdmin | app/routers/users.py:13-22 | 403 exactly when the caller is not an admin, who is otherwise returned unchanged (the colleges router's copy, app/routers/colleges.py lines 14-23, is the same check) |
| Users.CreateUser | app/routers/users.py:25-55 | 422 exactly when the password is shorter than six characters (app/schemas.py:16), then 400 exactly when the username is taken, store untouched on both; otherwise one new user at the end of the table with the next id and the given fields, `is_admin` false, inactive (the column default), and a hash that verifies against the password; usernames stay unique |
| Users.ActiveUsers | app/routers/users.py:71-72 | exactly the users that are active |
| Users.ListUsers | app/routers/users.py:58-75 | 403 for a non-admin; otherwise at most `limit` users of the table, only active ones when `active_only`, the page after the first `skip`; defaults 0, 100 and all users |
| Users.GetUser | app/routers/users.py:78-95 | 403 for a non-admin, 404 exactly for an unknown id, otherwise the user with that id |
| Users.ActivateUser | app/routers/users.py:98-119 | 403 for a non-admin, 404 exactly for an unknown id; otherwise that user's `is_active` becomes true and no other column or user changes |
| Users.ActivateTwice | app/routers/users.py:107-119 | activating twice succeeds both times on the same user and ends as activating once: only its `is_active` changed |
| Users.DeactivateUser | app/routers/users.py:122-150 | 403 for a non-admin, then 404 for an unknown id, then 400 when the target is the caller; otherwise only that user's `is_active` becomes false |
| Users.DeleteUser | app/routers/users.py:153-183 | 403, then 404 for an unknown id, then 400 on self-delete; otherwise the user and its cascaded dependents go (as `Db.DeleteUser`), the caller stays |
| Events.CreateEvent | app/routers/events.py:13-47 | 400 exactly when an end time is given that is not after the start, store untouched; otherwise one new event with the request's fields, created by the caller, with the next id, and not full; every stored event keeps its end after its start |
| Events.FreshEventNotFull | app/models.py:110-114 | an event whose capacity passed the schema bound is not full while it has no registrations |
| Events.InsertByStart | app/routers/events.py:60 | inserting into a start-ordered list keeps it ordered and adds exactly that event |
| Events.SortByStart | app/routers/events.py:60 | `ORDER BY start_time` gives a start-ordered permutation of the table |
| Events.ListEvents | app/routers/events.py:50-61 | ordered by start time, at most `limit` events, event `i` is event `skip + i` of the ordered table, all from the table; defaults 0 and 100 |
| Events.GetEvent | app/routers/events.py:64-81 | 404 exactly for an unknown id, otherwise the event with that id |
| Events.DeleteEvent | app/routers/events.py:84-107 | 404 exactly for an unknown id, store untouched; otherwise the event and all its registrations go and nothing else changes |
| Colleges.LowerChar | app/routers/colleges.py:45 | `lower()` on one character: ASCII capitals become small letters, every other character stays |
| Colleges.Lower | app/routers/colleges.py:45 | `lower()` keeps the length and lowers each character |
| Colleges.AdminUsername | app/routers/colleges.py:45 | `"admin."` followed by the code in lower case |
| Colleges.AdminUsernameCaseInsensitive | app/routers/colleges.py:45-51 | two codes give the same admin username exactly when they agree in lower case |
| Colleges.Decimal | app/routers/colleges.py:77 | the year's decimal digits, no leading zero |
| Colleges.DecimalRoundTrip | app/routers/colleges.py:77 | the digits denote the year |
| Colleges.DefaultPassword | app/routers/colleges.py:77 | the code, then `@`, then digits denoting the year |
| Colleges.FindCollegeIn | app/routers/colleges.py:114 | finds a college with that id, and none exactly when no college has that id |
| Colleges.CodeTaken | app/routers/colleges.py:37 | some stored college has exactly that code |
| Colleges.CreateCollegeCheck | app/routers/colleges.py:36-51 | the checks in order: 403 for a non-admin, 400 for a taken code, 400 for a taken admin username |
| Colleges.CreateCollege | app/routers/colleges.py:26-83 | refused exactly when a check fails, store untouched; otherwise exactly one college with the request's fields and one new active admin user `admin.<lower(code)>` (first name the code, last name `Admin`, email the contact email), whose password verifies against `<code>@<year>` |
| Colleges.SecondCreateRefused | app/routers/colleges.py:37-42 | once a college is stored, creating one with its code is refused by an admin's check as a taken code (and `CreateCollege` ensures this of the store it leaves) |
| Colleges.ListColleges | app/routers/colleges.py:86-102 | exactly the `OFFSET skip LIMIT limit` page of the active colleges when `active_only` (default true), of all colleges otherwise; defaults 0 and 100 |
| Colleges.ListCollegesDefault | app/routers/colleges.py:88-90 | with every parameter at its default, the first 100 active colleges |
| Colleges.GetCollege | app/routers/colleges.py:105-122 | 404 exactly for an unknown id, otherwise the college with that id |
| Colleges.DeleteCollege | app/routers/colleges.py:125-148 | 403, then 404 for an unknown id; otherwise the college and its student profiles go, and users, events and registrations stay |
| Schemas.ParseUserCreate | app/schemas.py:15-17 | valid exactly when the password has at least 6 characters; `is_admin` false unless given |
| Schemas.MakeTokenData | app/schemas.py:49-51 | no user id and no admin right unless the token gives them |
| Schemas.CheckEventCreate | app/schemas.py:58-68 | valid exactly when the title has 1 to 255 characters and the capacity is absent or at least 1 |
| Schemas.CheckEventUpdate | app/schemas.py:71-77 | every field may be absent; a title or capacity that is present obeys the same bounds |
| Schemas.UpdateBoundsMatchCreate | app/schemas.py:58-77 | an update that gives every field is valid exactly when the same creation is |
| Migration.Position | alembic/versions/2025_12_01_1024-b0d8e72f839f_replace_full_name_with_first_last_name.py:30 | `POSITION(' ' IN s)`: 0 exactly when there is no space, otherwise the 1-based index of the first space |
| Migration.SplitPartFirst | alembic/versions/2025_12_01_1024-b0d8e72f839f_replace_full_name_with_first_last_name.py:29 | `SPLIT_PART(s, ' ', 1)`: the text before the first space, or the whole string when there is none |
| Migration.SubstringFrom | alembic/versions/2025_12_01_1024-b0d8e72f839f_replace_full_name_with_first_last_name.py:30 | `SUBSTRING(s FROM k)`: from 1-based position `k` on, all of `s` for `k <= 1`, empty past the end |
| Migration.Coalesce | alembic/versions/2025_12_01_1024-b0d8e72f839f_replace_full_name_with_first_last_name.py:49 | `COALESCE(x, '')`: the value, or the empty string for NULL |
| Migration.LastPart | alembic/versions/2025_12_01_1024-b0d8e72f839f_replace_full_name_with_first_last_name.py:30 | the text after the first space; the whole name when there is no space |
| Migration.UpgradeRow | alembic/versions/2025_12_01_1024-b0d8e72f839f_replace_full_name_with_first_last_name.py:19-37 | other columns unchanged, `full_name` dropped; the parts stay NULL exactly for a NULL or empty name; otherwise first part without spaces, and name = first + " " + last when it has a space, both parts the whole name when not |
| Migration.DowngradeRow | alembic/versions/2025_12_01_1024-b0d8e72f839f_replace_full_name_with_first_last_name.py:40-57 | other columns unchanged, parts dropped; `full_name` NULL exactly when both parts are NULL, otherwise the two parts (NULL as empty) joined by a space |
| Migration.RoundTripWithSpace | alembic/versions/2025_12_01_1024-b0d8e72f839f_replace_full_name_with_first_last_name.py:28-31 | a name with a space survives upgrade then downgrade |
| Migration.RoundTripWithoutSpace | alembic/versions/2025_12_01_1024-b0d8e72f839f_replace_full_name_with_first_last_name.py:28-31 | a non-empty name without a space `n` comes back as `n + " " + n` |
| Migration.RoundTripEmpty | alembic/versions/2025_12_01_1024-b0d8e72f839f_replace_full_name_with_first_last_name.py:31 | a NULL or empty name comes back NULL |
| Migration.Upgrade | alembic/versions/2025_12_01_1024-b0d8e72f839f_replace_full_name_with_first_last_name.py:26-33 | the `UPDATE` changes every row in place as `UpgradeRow` |
| Migration.Downgrade | alembic/versions/2025_12_01_1024-b0d8e72f839f_replace_full_name_with_first_last_name.py:46-52 | the `UPDATE` changes every row in place as `DowngradeRow` |
| Migration.UpgradeThenDowngrade | alembic/versions/2025_12_01_1024-b0d8e72f839f_replace_full_name_with_first_last_name.py:19-57 | over the whole table: every row keeps its other columns, and every name with a space is restored |
| Config.Split | app/config.py:25 | `split(",")`: one segment more than there are commas, none containing a comma |
| Config.JoinSplit | app/config.py:25 | joining the segments with commas gives the string back, so segments keep their order |
| Config.SplitNoComma | app/config.py:25 | a string without a comma is one segment |
| Config.SplitAtComma | app/config.py:25 | a comma splits the string exactly there |
| Config.TrimStart | app/config.py:25 | removes exactly the leading whitespace |
| Config.TrimEnd | app/config.py:25 | removes exactly the trailing whitespace |
| Config.Strip | app/config.py:25 | the result is a slice of the input with only whitespace before and after it, and has no whitespace at either end; a string without edge whitespace is unchanged |
| Config.TrimSpan | app/config.py:25 | trimming both ends leaves a slice of the input with only whitespace around it |
| Config.StripIdempotent | app/config.py:25 | stripping twice is stripping once |
| Config.AllowedOriginsList | app/config.py:23-25 | one entry per segment, entry `i` the stripped segment `i`, no entry with a comma or edge whitespace |
| Config.SplitTwo | app/config.py:25 | two comma-free strings joined by a comma are two segments |
| Config.StripKeeps | app/config.py:25 | a string with non-space first and last characters is its own strip |
| Config.LocalOriginsCommaFree | app/config.py:21 | the two default origins contain no comma |
| Config.LocalOriginsStripped | app/config.py:21 | the two default origins have no edge whitespace |
| Config.OriginsOfTwo | app/config.py:25 | two stripped comma-free origins joined by a comma give exactly those two entries |
| Config.DefaultIsTwoOrigins | app/config.py:21 | the default setting is the two local origins joined by one comma |
| Config.DefaultOrigins | app/config.py:21-25 | with the default setting the list is `["http://localhost:3000", "http://localhost:3001"]` |

## Findings

| source | as written | input that shows it | evidently intended | confidence | as-written member | corrected member |
|---|---|---|---|---|---|---|
| app/models.py:49-53, 61-64 | a password longer than 72 bytes is replaced by its 64-character hex SHA-256 digest, which is itself a valid password of at most 72 bytes, so it passes through unchanged and gives bcrypt the same bytes | any password `p` with more than 72 UTF-8 bytes, and `q = sha256(p).hexdigest()`: `verify_password(q)` is true after `set_password(p)` | only the password that was set verifies, up to hash collisions | high for the logic; not executed | Passwords.DigestAlsoAccepted | Passwords.SeparatedRejects |

The `Models.User` class keeps the pre-hash as written, so that its
contracts describe the code; the corrected scheme is stated beside it in
`Passwords` (`SeparatedPreHash`, `SeparatedStoredHash`,
`SeparatedMatches`), where it keeps the round trip
(`SeparatedSetThenVerify`) and gains rejection (`SeparatedRejects`).

## Left out

- bcrypt and SHA-256 internals: foreign libraries, represented by `Passwords.Crypto` and its three laws.
- Models.User.VerifyPassword: its contract states only acceptance. It does not reject every other password: the hex SHA-256 digest of any password longer than 72 bytes is accepted as well (`Passwords.DigestAlsoAccepted`, see "## Findings"). Which candidates it rejects is stated by `Passwords.MatchesExactly`, under an exact-bcrypt assumption that the three laws leave open.
- The salt from `bcrypt.gensalt()`, `datetime.utcnow()` and `datetime.now().year`: parameters, since randomness and clocks are outside the model.
- Token creation and checking, `get_current_user` and `get_current_admin_user` (`app/dependencies` is not part of this model): the caller is a parameter, and `Events.CreateEvent` and `Events.DeleteEvent` require `current.isAdmin`.
- `app/routers/auth.py`: it targets an older schema (email login, `full_name`), and its remaining logic is a JWT call into code that is not part of this model.
- Concurrency: the check-then-insert race between the capacity check and the insert has no lock in the code; operations are modelled one at a time.
- ORM sessions, commits, refreshes, FastAPI routing, response models, CORS middleware and app startup (`app/main.py`): plumbing with no rules of its own.
- The settings other than `allowed_origins_list`, and `.env` loading: configuration plumbing.
- The other three Alembic revisions: DDL and single-row seed statements with no logic.
- Column length limits (`String(120)` and others) and 32-bit `Integer` ids: ids and strings are unbounded; the database rejects values past its limits, which the model does not.
- `EmailStr` validation: its syntax rules belong to an external library; emails are plain strings.
- `updated_at` and its `onupdate` hook: no modelled operation updates a college or student row.
- Student rows: no handler in the core inserts one; the table appears only as a cascade target and through its foreign keys.
- Request validation of `skip`, `limit` and `event_id`: they are natural numbers and integers; the 400/500 that PostgreSQL raises for a negative `OFFSET` or `LIMIT` is not modelled.
- Colleges.LowerChar and Colleges.Lower: lower-case only ASCII `A`–`Z`; Python's `str.lower()` also maps the other Unicode capitals, which is not modelled because Dafny has no Unicode case tables.
- Events.SortByStart: fixes one order (stable insertion) for events with equal start times, which PostgreSQL leaves unspecified.
- Users.ListUsers: pages over the user table in insertion order; the query has no `ORDER BY`, so PostgreSQL leaves the order unspecified, and an in-place `UPDATE` (activate, deactivate) may move a row.
- Colleges.ListColleges: pages over the college table in insertion order; the query has no `ORDER BY`, so PostgreSQL leaves the order unspecified.
- Events.CreateEvent: times are one integer clock, so the 500 that Python's `<=` raises (a `TypeError`) when one of `start_time` and `end_time` is timezone-aware and the other naive is not modelled.
- Users.CreateUser: takes the fields `create_user` reads (`username`, `first_name`, `last_name`) rather than the declared `UserCreate`, which lacks them; so the 422 for a body without `email` (`email: EmailStr` is required) and the 500 (`AttributeError` at app/routers/users.py:34) that every validated request meets as written are not modelled.
- Colleges.CreateCollege: the `ImportError` of `app/routers/colleges.py` (it imports `CollegeCreate` and `CollegeResponse`, which `app/schemas.py` does not define) is not modelled; neither is the fact that `app/main.py` does not mount the router. The same holds for `Colleges.ListColleges`, `Colleges.GetCollege` and `Colleges.DeleteCollege`.
- Schemas.ParseUserCreate: pydantic's 422 response body is reduced to one error kind, `Unprocessable`.
- The migration's column type `String(120)` and the schema changes themselves (`add_column`, `drop_column`): a column absent on one side of the revision is modelled as NULL there.
