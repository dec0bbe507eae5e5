# DaManage backend security core, modelled in Dafny

DaManage is a password manager. Its Node.js backend (`usdm-backend`) stores vault items
for authenticated users. This project models the parts of that backend that carry its
security logic, and proves properties of the model:

- **Brute-force guard** (`bruteforce.dfy`, module `BruteForce`). This is the in-memory map
  from a login identifier (`<ip>-<username>`) to the times of its failed logins. It covers:
  - `checkBruteForce`, which prunes the identifier's list to a 15-minute sliding window
    and rejects the login once five failures remain, reporting the time left in whole minutes;
  - `recordFailedAttempt` and `clearFailedAttempts`;
  - the five-minute `setInterval` sweep.

  The map is the field `attempts` of the class `BruteForceGuard`. Its methods are proved
  against the functions `CheckDecision`, `Checked`, `Recorded`, `Cleared` and `Swept`.
- **Security audit log** (`auditlog.dfy`, module `AuditLog`). It covers:
  - the day-partitioned file name `security-YYYY-MM-DD.log`;
  - the entry `{ timestamp, event, ...data }`;
  - the ten `log*` helpers, with their default arguments and fixed severities;
  - the redaction of tokens to ten characters plus `...`;
  - the 30-day retention sweep `cleanupOldLogs`.

  The log directory is a map from file name to file. Each file holds its entries and its
  modification time. The directory and the error channel are fields of the class
  `SecurityAudit`.
- **Vault password encryption** (`vaultcipher.dfy`, module `VaultCipher`). These are
  `encryptSecret` and `decryptSecret`: the 32-byte key check and the
  `iv (12) ‖ tag (16) ‖ ciphertext` layout of a stored blob. AES-256-GCM itself is a
  parameter. Its correctness (a 16-byte tag; opening what was sealed gives it back) is the
  predicate `Correct`.
- **Vault update** (`vaultupdate.dfy`, module `VaultUpdate`). This is `PUT /vault/:id` up to
  the database call:
  - the optional re-encryption of a string password;
  - the `column = ?` assignments with their values, in a fixed column order;
  - the forced `updated_at`;
  - the `WHERE user_id = ? AND id = ?` scoping.
- **Bearer header check** (`authheader.dfy`, module `AuthHeader`) of the `auth` middleware.
  The JSON Web Token library is a parameter. A rejected token is reported to the audit log.
- **`.env` merge** (`envfile.dfy`, module `EnvFile`). This is the part of `ensureEnv` that
  reads the current `.env` text into an insertion-ordered map, sets the three secrets, and
  writes the map back.

Supporting modules model the JavaScript built-ins the core relies on:
- `text.dfy` has `split` on one character, `indexOf`, `join` and decimal digits.
- `objects.dfy` models `Map`s and plain objects as sequences of key-value pairs. It covers
  `set`, lookup and the object spread, where the last value of a key wins and its first
  position is kept. For a `Map` this order is exact. A plain object lists its array-index
  keys (`"0"`, `"42"`) first, in ascending order; the model does not.
- `isodate.dfy` has `Date.prototype.toISOString` for any millisecond time, including
  six-digit years.

Clock readings, the file system's failures, random nonces, base64 encoding and the JWT
library are parameters of the operations that use them.

Two facts of the code are worth stating on their own:
- `decryptSecret` has no minimum-length check: a blob shorter than 28 bytes is cut into a
  short nonce and tag and handed to the cipher (`VaultCipher.ShortBlobReachesCipher`).
- The `No updates` branch of `PUT /vault/:id` cannot be taken: `updated_at` is pushed
  before the `fields.length === 0` test (`VaultUpdate.EmptyRequestTouchesTimestamp`).

## Model

| member | source | states |
|---|---|---|
| BruteForce.Recent | usdm-backend/server.js:120 | the filter's test: a failure counts while it is less than 15 minutes (900000 ms) old, strictly |
| BruteForce.Prune | usdm-backend/server.js:120 | the window filter never lengthens a list and keeps only failures less than 15 minutes old |
| BruteForce.PruneMembers | usdm-backend/server.js:120 | a failure survives pruning exactly when it is recent, and the survivors keep their order (subsequence) |
| BruteForce.PruneMultiset | usdm-backend/server.js:120 | each recent failure is kept as often as it occurs; the others are all dropped |
| BruteForce.PruneAllRecent | usdm-backend/server.js:120 | a list of recent failures is left unchanged |
| BruteForce.PruneNoneRecent | usdm-backend/server.js:120 | a list of old failures is emptied |
| BruteForce.PruneConcat | usdm-backend/server.js:120 | pruning distributes over concatenation |
| BruteForce.PruneIdempotent | usdm-backend/server.js:120-121 | pruning twice at one time is pruning once |
| BruteForce.PruneLater | usdm-backend/server.js:147 | pruning at t1 and then at a later t2 is pruning at t2 |
| BruteForce.MinOf | usdm-backend/server.js:124 | `Math.min` is an element of the list and not above any element |
| BruteForce.CeilDiv | usdm-backend/server.js:125 | `Math.ceil(x / d)` is the q with (q-1)·d < x ≤ q·d |
| BruteForce.Decide | usdm-backend/server.js:123-130 | locked iff at least five recent failures; otherwise 5 − count attempts are left, between 1 and 5; a lock reports the remaining lockout rounded up to whole minutes |
| BruteForce.CheckDecision | usdm-backend/server.js:113-131 | locked iff the identifier has at least five failures inside the window; otherwise allowed with 5 − that count attempts left, between 1 and 5; an unknown identifier has five |
| BruteForce.Checked | usdm-backend/server.js:115-121 | the check rewrites only the identifier's own list, and only if it has one |
| BruteForce.Recorded | usdm-backend/server.js:133-137 | recording adds the identifier, appends the time to its list, and leaves the other lists unchanged |
| BruteForce.Cleared | usdm-backend/server.js:139-141 | clearing removes exactly the identifier |
| BruteForce.Swept | usdm-backend/server.js:144-154 | after the sweep an identifier remains iff it has recent failures, and its list is then the pruned one |
| BruteForce.IpOf | usdm-backend/server.js:126 | `identifier.split('-')[0]` is the longest prefix without `-`; it is the whole identifier when there is no `-` |
| BruteForce.CheckAbsent | usdm-backend/server.js:117 | an unknown identifier gets five attempts and the table is untouched |
| BruteForce.LockedTimeLeft | usdm-backend/server.js:123-127 | a lock reports at least one minute, and at most fifteen when no failure lies in the future |
| BruteForce.CheckTwice | usdm-backend/server.js:113-131 | a second check at the same time changes nothing and decides the same |
| BruteForce.FiveFailuresLock | usdm-backend/server.js:110-137 | five recent failures recorded for a fresh identifier lock it |
| BruteForce.FourFailuresLeaveOne | usdm-backend/server.js:130 | four recent failures leave one attempt |
| BruteForce.LockExpires | usdm-backend/server.js:111-121 | once every failure is 15 minutes old the identifier has five attempts again and its list is emptied |
| BruteForce.ClearUnlocks | usdm-backend/server.js:139-141 | after clearing, the identifier is gone and is allowed five attempts |
| BruteForce.SweepInvisible | usdm-backend/server.js:144-154 | no later check can tell whether the sweep ran: same decision, same pruned list |
| BruteForce.RecordKeepsWindowStart | usdm-backend/server.js:123-137 | a further failure while locked is appended to the window, does not move its oldest failure, and leaves the lock and its time left as they were |
| BruteForce.RecordThenPrune | usdm-backend/server.js:133-137 | a failure recorded now appears at the end of the pruned list |
| BruteForce.BruteForceGuard.constructor | usdm-backend/server.js:109 | the table starts empty |
| BruteForce.BruteForceGuard.CheckBruteForce | usdm-backend/server.js:113-131 | returns `CheckDecision` of the old table and leaves `Checked` of it; a lock appends a CRITICAL `BRUTE_FORCE_DETECTED` entry with the IP prefix and the pruned count, or, when the write fails, adds one write error and changes no file; an allowed check does not log |
| BruteForce.BruteForceGuard.RecordFailedAttempt | usdm-backend/server.js:133-137 | the new table is `Recorded` of the old |
| BruteForce.BruteForceGuard.ClearFailedAttempts | usdm-backend/server.js:139-141 | the new table is `Cleared` of the old |
| BruteForce.BruteForceGuard.Sweep | usdm-backend/server.js:144-154 | the loop over all identifiers leaves `Swept` of the old table, whatever order it visits them in |
| AuditLog.PathJoin | usdm-backend/security-audit.js:26 | the path ends with the file name |
| AuditLog.PathJoinInjective | usdm-backend/security-audit.js:26 | different file names in one directory give different paths |
| AuditLog.LogFileName | usdm-backend/security-audit.js:24-26 | the name is `security-` + the first ten characters of the ISO time + `.log` (23 characters) |
| AuditLog.LogFileNameIsSwept | usdm-backend/security-audit.js:121 | every file the log writes matches the retention sweep's filter |
| AuditLog.SameDaySameLogFile | usdm-backend/security-audit.js:25 | entries of the same UTC day go to the same file |
| AuditLog.LogFileNameIffSameDay | usdm-backend/security-audit.js:25 | for years 0 to 9999, two times share a file iff they fall on the same UTC day |
| AuditLog.ExtendedYearLogFileIsMonthly | usdm-backend/security-audit.js:25 | past year 9999 the ten-character slice stops at the month, so a whole month shares a file |
| AuditLog.MakeEntry | usdm-backend/security-audit.js:30-34 | the entry has exactly the keys `timestamp`, `event` and the caller's keys |
| AuditLog.EntryField | usdm-backend/security-audit.js:30-34 | a caller's field overrides `timestamp` and `event`; otherwise they hold the time and the event name |
| AuditLog.EntryKeyOrder | usdm-backend/security-audit.js:30-34 | `timestamp` and `event` are the first two keys when no caller key is an array index |
| AuditLog.Signup | usdm-backend/security-audit.js:43-45 | a `SIGNUP` entry has no severity (defaults `success = true`, `error = null`) |
| AuditLog.Login | usdm-backend/security-audit.js:47-49 | a `LOGIN` entry has no severity |
| AuditLog.Logout | usdm-backend/security-audit.js:51-53 | a `LOGOUT` entry has no severity |
| AuditLog.FailedLogin | usdm-backend/security-audit.js:55-62 | a `FAILED_LOGIN` entry has severity WARNING |
| AuditLog.BruteForceDetected | usdm-backend/security-audit.js:64-71 | a `BRUTE_FORCE_DETECTED` entry has severity CRITICAL and records the attempts count |
| AuditLog.RateLimitExceeded | usdm-backend/security-audit.js:73-79 | a `RATE_LIMIT_EXCEEDED` entry has severity WARNING |
| AuditLog.VaultAccess | usdm-backend/security-audit.js:81-88 | a `VAULT_ACCESS` entry has no severity |
| AuditLog.SuspiciousActivity | usdm-backend/security-audit.js:90-96 | severity is CRITICAL whatever the caller's fields; the caller's `event` and `description` do override the defaults |
| AuditLog.TokenIssued | usdm-backend/security-audit.js:98-104 | a `TOKEN_ISSUED` entry has no severity |
| AuditLog.TokenPrefix | usdm-backend/security-audit.js:109 | `N/A` iff the token is missing or empty; otherwise at most the token's first ten characters followed by `...` |
| AuditLog.TokenValidationFailed | usdm-backend/security-audit.js:106-112 | a `TOKEN_VALIDATION_FAILED` entry has severity WARNING and only the redacted token prefix |
| AuditLog.Appended | usdm-backend/security-audit.js:37 | appending creates a missing file, adds the entry at the end, and leaves every other file alone |
| AuditLog.LogFilesIn | usdm-backend/security-audit.js:121 | the filter keeps only listed names, and without repeats when the listing has none |
| AuditLog.IsLogFileName | usdm-backend/security-audit.js:121 | the cleanup filter's test: `security-` prefix and `.log` suffix |
| AuditLog.Expired | usdm-backend/security-audit.js:124-127 | a file is expired when its age exceeds `maxAge`, strictly |
| AuditLog.LogFilesInIff | usdm-backend/security-audit.js:121 | a name passes the filter iff it starts with `security-` and ends with `.log` |
| AuditLog.SweepPlan | usdm-backend/security-audit.js:122-131 | the sweep deletes at most one file per candidate, and only expired candidates |
| AuditLog.SweepPlanSound | usdm-backend/security-audit.js:122-131 | only expired candidates are deleted; with no failure every expired candidate is; a failure needs a failing call |
| AuditLog.Cleanup | usdm-backend/security-audit.js:114-135 | a failing `readdirSync` deletes nothing and is reported; otherwise only listed log files older than the retention period are deleted |
| AuditLog.CleanupDeletesExactlyExpiredLogs | usdm-backend/security-audit.js:114-135 | a deleted file is a log file older than `daysToKeep` days; with no failures, a file is deleted iff it is such a file |
| AuditLog.RetentionExample | usdm-backend/security-audit.js:114-131 | with the default 30 days, logs 0 and 10 days old are kept, a 40-day one is deleted, and another file is kept at any age |
| AuditLog.Sweep | usdm-backend/security-audit.js:122-131 | the `forEach` deletes exactly the files the sweep plan gives, stops at the first failing call, and leaves every other file |
| AuditLog.SecurityAudit.constructor | usdm-backend/security-audit.js:6-16 | the log directory is fixed, with the existing files and no errors |
| AuditLog.SecurityAudit.LogFilePath | usdm-backend/security-audit.js:24-27 | the path ends in the day's log file name |
| AuditLog.SecurityAudit.Log | usdm-backend/security-audit.js:29-41 | a successful write appends the entry to the file named for the path clock reading; a failed write changes no file and reports one error instead of throwing |
| AuditLog.SecurityAudit.CleanupOldLogs | usdm-backend/security-audit.js:114-135 | deletes exactly `Cleanup`'s files, removes them from the directory, and reports one error iff a call failed |
| IsoDate.IsoString | usdm-backend/security-audit.js:25 | `toISOString` has at least ten characters, and they are the first ten of the date: `YYYY-MM-DD` for years 0 to 9999, `±YYYYYY-MM` beyond |
| IsoDate.DateTimeOf | usdm-backend/security-audit.js:25 | the UTC fields of a time: a valid calendar date, hour, minute, second and millisecond in range, which add back up to the time |
| IsoDate.CivilOfDay | usdm-backend/security-audit.js:25 | the calendar date of a day number is valid and maps back to that day |
| IsoDate.IsoDatePrefixIff | usdm-backend/security-audit.js:25 | for years 0 to 9999 the first ten characters of `toISOString` agree iff the UTC day agrees |
| IsoDate.ExtendedYearIsoDateIsMonth | usdm-backend/security-audit.js:25 | for six-digit years the first ten characters agree within a month |
| VaultCipher.Frame | usdm-backend/server.js:428 | the blob is as long as nonce, tag and ciphertext together |
| VaultCipher.Subarray | usdm-backend/server.js:437-439 | `subarray` clamps both bounds to the buffer |
| VaultCipher.Unframe | usdm-backend/server.js:436-439 | the three slices are at most 12 and 16 bytes and concatenate to the blob |
| VaultCipher.EncryptSecret | usdm-backend/server.js:419-429 | `null` iff the key is not 32 bytes; otherwise the blob starts with the nonce |
| VaultCipher.DecryptSecret | usdm-backend/server.js:431-444 | `null` iff the key is not 32 bytes; with a 32-byte key it fails iff the cipher rejects the three slices, and otherwise returns the text the cipher opened |
| VaultCipher.UnframeFrame | usdm-backend/server.js:436-439 | slicing a framed blob gives back nonce, tag and ciphertext |
| VaultCipher.FrameUnframe | usdm-backend/server.js:436-439 | a blob of at least 28 bytes is the frame of its slices |
| VaultCipher.ShortBlobReachesCipher | usdm-backend/server.js:436-442 | a blob under 28 bytes is not rejected: it reaches the cipher with an empty ciphertext |
| VaultCipher.RoundTrip | usdm-backend/server.js:419-444 | under a correct cipher and a 32-byte key, decrypting what was encrypted gives the password |
| VaultCipher.DecryptOutcomes | usdm-backend/server.js:428-443 | decrypting the frame of a 12-byte nonce, a 16-byte tag and a ciphertext opens exactly those three parts, so a stored blob is read at the layout it was written in |
| VaultUpdate.EncryptedPassword | usdm-backend/server.js:502-506 | a ciphertext iff the request has a string password and the key is 32 bytes |
| VaultUpdate.Assignments | usdm-backend/server.js:509-513 | at most five assignments, each to a column of the table |
| VaultUpdate.Placeholders | usdm-backend/server.js:509-513 | one placeholder per assignment |
| VaultUpdate.PlaceholderAt | usdm-backend/server.js:509-513 | the i-th placeholder is `column = ?` of the i-th assignment |
| VaultUpdate.ValuesOf | usdm-backend/server.js:509-513 | one value per assignment, in the same order |
| VaultUpdate.AssignmentsOrdered | usdm-backend/server.js:509-513 | only table columns are set, each at most once, in the order title, username, url, notes, password |
| VaultUpdate.AssignmentsHoldRequest | usdm-backend/server.js:509-513 | a column is set iff the request has it (`!== undefined`), to the request's value; the password column holds the ciphertext |
| VaultUpdate.AssignmentMarks | usdm-backend/server.js:509-513 | every assignment contributes exactly one `?` |
| VaultUpdate.PushFields | usdm-backend/server.js:507-513 | the five conditional pushes build the placeholders and values of the assignments |
| VaultUpdate.BuildUpdate | usdm-backend/server.js:507-517 | the statement sets the assignments and `updated_at`, and has exactly as many `?` as parameters |
| VaultUpdate.UpdateVaultItem | usdm-backend/server.js:497-518 | `Vault not configured` iff a string password cannot be encrypted; otherwise the statement of `BuildUpdate` with the encoded ciphertext |
| VaultUpdate.ScopedToOwner | usdm-backend/server.js:516-517 | the last two parameters are the user id and the item id, bound by the `WHERE user_id = ? AND id = ?` that ends the statement |
| VaultUpdate.EmptyRequestTouchesTimestamp | usdm-backend/server.js:514-515 | an empty request still sets `updated_at`, so the `No updates` branch is dead |
| AuthHeader.BearerToken | usdm-backend/server.js:401-402 | an accepted header is `Bearer`, one space and the token, which has no space; a header without exactly one space is rejected |
| AuthHeader.BearerTokenIff | usdm-backend/server.js:401-405 | a header is accepted iff it is `Bearer`, one space and a token without spaces, and the token is that rest |
| AuthHeader.EmptyBearerToken | usdm-backend/server.js:401-414 | `Bearer ` passes with an empty token, which is logged as `N/A` |
| AuthHeader.MalformedHeaders | usdm-backend/server.js:401-405 | two spaces, a missing scheme or a lower-case scheme are rejected |
| AuthHeader.Authenticate | usdm-backend/server.js:397-417 | authenticated iff the header is well formed and the library accepts the token, with the payload's `sub` as user id; only a rejected token is logged, and a failed write of that entry adds one write error |
| Text.Split | usdm-backend/server.js:401 | `split` gives one more part than separators, no part holds one, and joining restores the text |
| Text.JoinEnds | usdm-backend/server.js:193 | `join` of a non-empty list starts with its first part and ends with its last (`Text.Join` itself is the function it is about) |
| Text.StartsWith | usdm-backend/security-audit.js:121 | `startsWith`: the text's first characters are the prefix |
| Text.EndsWith | usdm-backend/security-audit.js:121 | `endsWith`: the text's last characters are the suffix |
| Text.SplitJoin | usdm-backend/server.js:401 | splitting a join of separator-free parts gives the parts back |
| Text.IndexOf | usdm-backend/server.js:186 | `indexOf` is -1 iff the character is absent, and otherwise its first position |
| Objects.Put | usdm-backend/server.js:190-192 | after `Map.set` the key holds the value; the map grows by one iff the key is new |
| Objects.Assign | usdm-backend/security-audit.js:30-34 | a spread grows the object by at most one pair per spread pair, never shrinks it, and its last pair wins (the key set is `Objects.AssignKeySet`) |
| Objects.AssignKeySet | usdm-backend/security-audit.js:30-34 | after a spread the keys are exactly the old keys and the spread's keys |
| Objects.PutGet | usdm-backend/server.js:190-192 | `Map.set` makes that key hold the value and leaves the other keys |
| Objects.PutKeys | usdm-backend/server.js:190-192 | `Map.set` keeps the key order and appends a new key |
| Objects.AssignGet | usdm-backend/security-audit.js:30-34 | after a spread a key holds the spread's last value for it, else its old value |
| EnvFile.SplitLines | usdm-backend/server.js:184 | `split(/\r?\n/)` gives one line more than there are line breaks |
| EnvFile.NonEmpty | usdm-backend/server.js:184 | `filter(Boolean)` keeps exactly the non-empty lines |
| EnvFile.ParseLine | usdm-backend/server.js:185-189 | a line splits at its first `=` into key and value; a line without `=` is a key with an empty value |
| EnvFile.ParseLineFirstEquals | usdm-backend/server.js:186-188 | `k=v` with no `=` in `k` parses back to `(k, v)` |
| EnvFile.ParseEnv | usdm-backend/server.js:184-189 | the `Map` read from the text has distinct keys, none holding `=`, and at most one entry per line |
| EnvFile.Merged | usdm-backend/server.js:190-192 | the merged map holds the three new secrets and has distinct keys |
| EnvFile.WriteEnv | usdm-backend/server.js:193 | a non-empty map without line breaks is written as its lines, one per entry, joined by `\n` |
| EnvFile.Merge | usdm-backend/server.js:184-193 | the text `ensureEnv` writes; when the merged map is well formed it reads back as that map |
| EnvFile.LinesOf | usdm-backend/server.js:193 | one line per entry |
| EnvFile.ReadBack | usdm-backend/server.js:184-193 | reading back a written file gives the same entries in the same order, for keys without `=` and entries without line breaks |
| EnvFile.CrLfLikeLf | usdm-backend/server.js:184 | a `\r\n` line break is read like `\n` |
| EnvFile.MergeHolds | usdm-backend/server.js:185-192 | after the merge the three secrets hold the new values, and every other key holds the value of its last line |
| EnvFile.MergeKeepsOrder | usdm-backend/server.js:185-192 | keys already in the file keep their positions; new secrets come after them |
| EnvFile.MergeIdempotent | usdm-backend/server.js:184-193 | when the merged map is well formed (no key holds `=` and no key or value holds a line break), writing the same secrets a second time reproduces the file; otherwise the source is not idempotent |

## Left out

- Console output (`console.log`, `console.warn`, and `console.error` text beyond the two audit-log messages) is left out; it changes no state.
- The JSON text is left out. An entry is modelled as its object before `JSON.stringify`, so fields that are `undefined`, which that call omits, are not modelled.
- The log directory's name comes from `AUDIT_LOG_PATH`, `LOCALAPPDATA`, `USERPROFILE` or the home directory, and `ensureLogDirectory` creates it. The directory is a constructor parameter.
- `path.join` is modelled only for a directory and a plain file name, with the POSIX separator `/`; on Windows the default directory would be joined with `\`. Normalisation of `..` and repeated separators is left out.
- AES-256-GCM, UTF-8 encoding, base64, `crypto.randomBytes` and `jwt.verify` are parameters of the operations that use them; their own behaviour is outside the model. A `VAULT_KEY` that is not valid base64 is modelled by its decoded bytes.
- The SQL execution, the `404 Not found` on zero changed rows and the `500` on a database error of `PUT /vault/:id` are left out. So are the other routes, rate limiting and request validation: they are outside the modelled core.
- The secret generation in `ensureEnv` is left out, as are its conditions for persisting. Generation uses randomness and the process environment. Only the `.env` merge is modelled; a failed read is the empty text.
- AuditLog.EntryKeyOrder: stated only when no caller key is an array index. A plain object lists such keys (`"0"`, `"42"`) before `timestamp`; `AuditLog.MakeEntry` and the other entry members keep pure insertion order, which differs for such keys.
- EnvFile.ReadBack: stated only for entries with distinct keys, keys without `=`, and no line breaks; other maps do not read back.
- BruteForce.CeilDiv: treats `(LOCKOUT_DURATION - elapsed) / 1000 / 60` as exact rational division before `Math.ceil`; floating-point rounding is not modelled.
- BruteForce.MinOf: the `RangeError` that `Math.min(...list)` throws for very long lists (over the engine's argument limit) is not modelled.
- The `setInterval` scheduling and concurrency between requests are left out. Each operation is atomic and the sweep is a method called at a given time.
- IsoDate.IsoString: renders every integer time; the `RangeError` that `toISOString` throws for times beyond ±8.64·10^15 ms is not modelled.
- Integer widths are not an issue here: `Date.now()` readings are whole milliseconds, exact in JavaScript numbers, so they are unbounded integers.
- AuditLog.Expired: a file's `mtime` stands for ⌊`stats.mtimeMs`⌋, which Node gives as a fraction. With a whole `now` and `maxAge`, `now - mtime > maxAge` decides exactly as the source's `age > maxAge` does, so nothing is lost.
- Objects.Value: numbers are integers, and there are no objects or arrays. A `PUT /vault/:id` field holding `1.5`, an object or an array is not representable; the builder passes field values through unchanged, and no proved property depends on their kind.
