/** The security audit log of `usdm-backend/security-audit.js`: day-partitioned
    log files in one directory, entries built from an event name and the
    caller's fields, a fixed severity per event, redaction of tokens, and a
    retention sweep that deletes old log files.

    The directory is a map from file name to file; a file holds the entries
    appended to it (one JSON line each in the source) and its modification time.
    Clock readings and file-system failures are parameters. */
module AuditLog {

  import opened Wrappers
  import opened Text
  import opened Objects
  import IsoDate

  // ---------------------------------------------------------------------------
  // File names

  const LogPrefix: string := "security-"
  const LogSuffix: string := ".log"

  /** `path.join(dir, name)` for a plain file name. */
  function PathJoin(dir: string, name: string): (p: string)
    ensures EndsWith(p, name)
  {
    if dir == "" then name
    else if EndsWith(dir, "/") then dir + name
    else dir + "/" + name
  }

  lemma PathJoinInjective(dir: string, n1: string, n2: string)
    requires PathJoin(dir, n1) == PathJoin(dir, n2)
    ensures n1 == n2
  {
    var p := PathJoin(dir, n1);
    var prefix := if dir == "" then "" else if EndsWith(dir, "/") then dir else dir + "/";
    assert p == prefix + n1 && p == prefix + n2;
    assert n1 == p[|prefix|..] == n2;
  }

  /** The name of the file an entry written at time `ms` goes to:
      `security-` followed by the first ten characters of the ISO time. */
  function LogFileName(ms: int): (name: string)
    ensures |name| == |LogPrefix| + 10 + |LogSuffix|
    ensures name[|LogPrefix|..|LogPrefix| + 10] == IsoDate.IsoString(ms)[..10]
  {
    var name := LogPrefix + IsoDate.IsoString(ms)[..10] + LogSuffix;
    assert name[|LogPrefix|..|LogPrefix| + 10] == IsoDate.IsoString(ms)[..10];
    name
  }

  /** Every file the log writes matches the pattern the retention sweep looks for. */
  lemma LogFileNameIsSwept(ms: int)
    ensures IsLogFileName(LogFileName(ms))
  {
    var name := LogFileName(ms);
    assert name[..|LogPrefix|] == LogPrefix;
    assert name[|name| - |LogSuffix|..] == LogSuffix;
  }

  /** Entries written on the same UTC day go to the same file. */
  lemma SameDaySameLogFile(ms1: int, ms2: int)
    requires IsoDate.DayNumber(ms1) == IsoDate.DayNumber(ms2)
    ensures LogFileName(ms1) == LogFileName(ms2)
  {
    IsoDate.SameDaySameIsoDate(ms1, ms2);
  }

  /** For years 0 to 9999, two writes share a file exactly when they happen on
      the same UTC day. */
  lemma LogFileNameIffSameDay(ms1: int, ms2: int)
    requires 0 <= IsoDate.DateTimeOf(ms1).date.year <= 9999
    requires 0 <= IsoDate.DateTimeOf(ms2).date.year <= 9999
    ensures LogFileName(ms1) == LogFileName(ms2) <==> IsoDate.DayNumber(ms1) == IsoDate.DayNumber(ms2)
  {
    IsoDate.IsoDatePrefixIff(ms1, ms2);
    if LogFileName(ms1) == LogFileName(ms2) {
      assert LogFileName(ms1)[|LogPrefix|..|LogPrefix| + 10] == LogFileName(ms2)[|LogPrefix|..|LogPrefix| + 10];
    }
  }

  /** Past the year 9999 the ISO time carries a six-digit signed year, so its
      first ten characters stop at the month: all entries of a month share one
      file. */
  lemma ExtendedYearLogFileIsMonthly(ms1: int, ms2: int)
    requires IsoDate.DateTimeOf(ms1).date.year == IsoDate.DateTimeOf(ms2).date.year
    requires IsoDate.DateTimeOf(ms1).date.month == IsoDate.DateTimeOf(ms2).date.month
    requires 9999 < IsoDate.DateTimeOf(ms1).date.year < 1000000
    ensures LogFileName(ms1) == LogFileName(ms2)
  {
    IsoDate.ExtendedYearIsoDateIsMonth(ms1, ms2);
  }

  // ---------------------------------------------------------------------------
  // Entries

  /** An event name and the fields the caller adds: the two arguments of `log`. */
  datatype Event = Event(kind: string, data: Object)

  /** The two fields `log` writes first. */
  function Head(stampMs: int, kind: string): Object {
    [("timestamp", Str(IsoDate.IsoString(stampMs))), ("event", Str(kind))]
  }

  /** `{ timestamp, event, ...data }`: the entry `log` writes. */
  function MakeEntry(stampMs: int, ev: Event): (e: Object)
    ensures forall k :: k in Keys(e) <==> k == "timestamp" || k == "event" || k in Keys(ev.data)
  {
    var head := Head(stampMs, ev.kind);
    AssignKeySet(head, ev.data);
    assert Keys(head) == ["timestamp", "event"];
    Assign(head, ev.data)
  }

  /** An entry's fields: a caller's field wins over `timestamp` and `event` of
      the same name; otherwise those two hold the time and the event name. */
  lemma EntryField(stampMs: int, ev: Event, k: string)
    ensures Get(MakeEntry(stampMs, ev), k) ==
      match Last(ev.data, k)
      case Some(v) => Some(v)
      case None =>
        if k == "timestamp" then Some(Str(IsoDate.IsoString(stampMs)))
        else if k == "event" then Some(Str(ev.kind))
        else None
  {
    var head := Head(stampMs, ev.kind);
    AssignGet(head, ev.data, k);
    assert head[1..] == [("event", Str(ev.kind))];
    assert Get(head, k) == if k == "timestamp" then Some(Str(IsoDate.IsoString(stampMs)))
                           else Get(head[1..], k);
    assert head[1..][1..] == [];
    assert Get(head[1..], k) == if k == "event" then Some(Str(ev.kind)) else Get(head[1..][1..], k);
  }

  /** `timestamp` and `event` are the first two keys of an entry, even when the
      caller's fields replace their values, unless a caller's key is an array
      index, which a JavaScript object lists before all others. */
  lemma EntryKeyOrder(stampMs: int, ev: Event)
    requires forall i :: 0 <= i < |ev.data| ==> !IsArrayIndex(ev.data[i].0)
    ensures |Keys(MakeEntry(stampMs, ev))| >= 2
    ensures Keys(MakeEntry(stampMs, ev))[..2] == ["timestamp", "event"]
  {
    AssignKeys(Head(stampMs, ev.kind), ev.data);
    assert Keys(Head(stampMs, ev.kind)) == ["timestamp", "event"];
  }

  lemma EntryFieldForall(ev: Event, k: string)
    requires k != "timestamp" && k != "event"
    ensures forall t :: Get(MakeEntry(t, ev), k) == Last(ev.data, k)
  {
    forall t ensures Get(MakeEntry(t, ev), k) == Last(ev.data, k) {
      EntryField(t, ev, k);
    }
  }

  lemma EntryEventForall(ev: Event)
    ensures forall t :: Get(MakeEntry(t, ev), "event")
                        == (if Last(ev.data, "event").Some? then Last(ev.data, "event") else Some(Str(ev.kind)))
  {
    forall t
      ensures Get(MakeEntry(t, ev), "event")
              == (if Last(ev.data, "event").Some? then Last(ev.data, "event") else Some(Str(ev.kind)))
    {
      EntryField(t, ev, "event");
    }
  }

  function Severity(entry: Object): Option<Value> {
    Get(entry, "severity")
  }

  const Warning: Value := Str("WARNING")
  const Critical: Value := Str("CRITICAL")

  function OrNull(s: Option<string>): Value {
    if s.Some? then Str(s.value) else Null
  }

  // The per-event helpers: each gives the arguments its `log*` method passes to `log`.

  function Signup(username: string, ip: string, success: bool := true, error: Option<string> := None): (e: Event)
    ensures forall t :: Severity(MakeEntry(t, e)) == None
    ensures forall t :: Get(MakeEntry(t, e), "event") == Some(Str("SIGNUP"))
  {
    var d: Object := [("username", Str(username)), ("ip", Str(ip)), ("success", Bool(success)), ("error", OrNull(error))];
    var e := Event("SIGNUP", d);
    LastAbsent(d, "severity");
    EntryFieldForall(e, "severity"); EntryEventForall(e); LastAbsent(d, "event");
    e
  }

  function Login(username: string, ip: string, success: bool := true, error: Option<string> := None): (e: Event)
    ensures forall t :: Severity(MakeEntry(t, e)) == None
    ensures forall t :: Get(MakeEntry(t, e), "event") == Some(Str("LOGIN"))
  {
    var d: Object := [("username", Str(username)), ("ip", Str(ip)), ("success", Bool(success)), ("error", OrNull(error))];
    var e := Event("LOGIN", d);
    LastAbsent(d, "severity");
    EntryFieldForall(e, "severity"); EntryEventForall(e); LastAbsent(d, "event");
    e
  }

  function Logout(username: string, ip: string): (e: Event)
    ensures forall t :: Severity(MakeEntry(t, e)) == None
    ensures forall t :: Get(MakeEntry(t, e), "event") == Some(Str("LOGOUT"))
  {
    var d: Object := [("username", Str(username)), ("ip", Str(ip))];
    var e := Event("LOGOUT", d);
    LastAbsent(d, "severity");
    EntryFieldForall(e, "severity"); EntryEventForall(e); LastAbsent(d, "event");
    e
  }

  function FailedLogin(username: string, ip: string, reason: string): (e: Event)
    ensures forall t :: Severity(MakeEntry(t, e)) == Some(Warning)
    ensures forall t :: Get(MakeEntry(t, e), "event") == Some(Str("FAILED_LOGIN"))
  {
    var d: Object := [("username", Str(username)), ("ip", Str(ip)), ("reason", Str(reason)), ("severity", Warning)];
    var e := Event("FAILED_LOGIN", d);
    EntryFieldForall(e, "severity"); EntryEventForall(e); LastAbsent(d, "event");
    e
  }

  function BruteForceDetected(identifier: string, ip: string, attemptsCount: int): (e: Event)
    ensures forall t :: Severity(MakeEntry(t, e)) == Some(Critical)
    ensures forall t :: Get(MakeEntry(t, e), "event") == Some(Str("BRUTE_FORCE_DETECTED"))
    ensures forall t :: Get(MakeEntry(t, e), "attemptsCount") == Some(Num(attemptsCount))
  {
    var d: Object := [("identifier", Str(identifier)), ("ip", Str(ip)), ("attemptsCount", Num(attemptsCount)), ("severity", Critical)];
    var e := Event("BRUTE_FORCE_DETECTED", d);
    EntryFieldForall(e, "severity"); EntryEventForall(e); LastAbsent(d, "event"); EntryFieldForall(e, "attemptsCount"); LastAt(d, "attemptsCount", 2);
    e
  }

  function RateLimitExceeded(ip: string, endpoint: string): (e: Event)
    ensures forall t :: Severity(MakeEntry(t, e)) == Some(Warning)
    ensures forall t :: Get(MakeEntry(t, e), "event") == Some(Str("RATE_LIMIT_EXCEEDED"))
  {
    var d: Object := [("ip", Str(ip)), ("endpoint", Str(endpoint)), ("severity", Warning)];
    var e := Event("RATE_LIMIT_EXCEEDED", d);
    EntryFieldForall(e, "severity"); EntryEventForall(e); LastAbsent(d, "event");
    e
  }

  function VaultAccess(userId: Value, username: string, operation: string, success: bool := true): (e: Event)
    ensures forall t :: Severity(MakeEntry(t, e)) == None
    ensures forall t :: Get(MakeEntry(t, e), "event") == Some(Str("VAULT_ACCESS"))
  {
    var d: Object := [("userId", userId), ("username", Str(username)), ("operation", Str(operation)), ("success", Bool(success))];
    var e := Event("VAULT_ACCESS", d);
    LastAbsent(d, "severity");
    EntryFieldForall(e, "severity"); EntryEventForall(e); LastAbsent(d, "event");
    e
  }

  /** `{ description, ...data, severity: 'CRITICAL' }`: the severity is written
      after the caller's fields, so no caller can lower it; but a caller's
      `event` or `timestamp` field does replace the entry's own. */
  function SuspiciousActivity(description: string, data: Object := []): (e: Event)
    ensures forall t :: Severity(MakeEntry(t, e)) == Some(Critical)
    ensures forall t :: Get(MakeEntry(t, e), "event")
                        == (if "event" in Keys(data) then Last(data, "event") else Some(Str("SUSPICIOUS_ACTIVITY")))
    ensures forall t :: Get(MakeEntry(t, e), "description")
                        == (if "description" in Keys(data) then Last(data, "description") else Some(Str(description)))
  {
    var head: Object := [("description", Str(description))];
    var withData := Assign(head, data);
    var e := Event("SUSPICIOUS_ACTIVITY", Put(withData, "severity", Critical));
    assert UniqueKeys(head);
    AssignUnique(head, data);
    PutUnique(withData, "severity", Critical);
    EntryFieldForall(e, "severity"); EntryEventForall(e); EntryFieldForall(e, "description");
    UniqueLast(e.data, "severity"); UniqueLast(e.data, "event"); UniqueLast(e.data, "description");
    PutGet(withData, "severity", Critical, "severity");
    PutGet(withData, "severity", Critical, "event");
    PutGet(withData, "severity", Critical, "description");
    AssignGet(head, data, "event");
    AssignGet(head, data, "description");
    LastNone(data, "event"); LastNone(data, "description");
    e
  }

  function TokenIssued(userId: Value, username: string, expiresIn: string): (e: Event)
    ensures forall t :: Severity(MakeEntry(t, e)) == None
    ensures forall t :: Get(MakeEntry(t, e), "event") == Some(Str("TOKEN_ISSUED"))
  {
    var d: Object := [("userId", userId), ("username", Str(username)), ("expiresIn", Str(expiresIn))];
    var e := Event("TOKEN_ISSUED", d);
    LastAbsent(d, "severity");
    EntryFieldForall(e, "severity"); EntryEventForall(e); LastAbsent(d, "event");
    e
  }

  /** `token ? token.slice(0, 10) + '...' : 'N/A'`; a missing or empty token is
      falsy. At most the first ten characters of a token are kept. */
  function TokenPrefix(token: Option<string>): (p: string)
    ensures |p| <= 13
    ensures p == "N/A" <==> token.None? || token.value == ""
    ensures p != "N/A" ==> EndsWith(p, "...") && StartsWith(token.value, p[..|p| - 3])
                           && |p| - 3 == (if |token.value| < 10 then |token.value| else 10)
  {
    if token.None? || token.value == "" then "N/A"
    else
      var t := token.value;
      var kept := if |t| < 10 then t else t[..10];
      var p := kept + "...";
      assert p[..|p| - 3] == kept && p[|p| - 3..] == "...";
      p
  }

  function TokenValidationFailed(reason: string, token: Option<string> := None): (e: Event)
    ensures forall t :: Severity(MakeEntry(t, e)) == Some(Warning)
    ensures forall t :: Get(MakeEntry(t, e), "event") == Some(Str("TOKEN_VALIDATION_FAILED"))
    ensures forall t :: Get(MakeEntry(t, e), "tokenPrefix") == Some(Str(TokenPrefix(token)))
  {
    var d: Object := [("reason", Str(reason)), ("tokenPrefix", Str(TokenPrefix(token))), ("severity", Warning)];
    var e := Event("TOKEN_VALIDATION_FAILED", d);
    EntryFieldForall(e, "severity"); EntryEventForall(e); LastAbsent(d, "event"); EntryFieldForall(e, "tokenPrefix"); LastAt(d, "tokenPrefix", 1);
    e
  }

  // ---------------------------------------------------------------------------
  // The directory and its retention sweep

  datatype LogFile = LogFile(entries: seq<Object>, mtime: int)

  /** The directory after appending `entry` to file `name` at time `ms`
      (`appendFileSync` creates a missing file). */
  function Appended(files: map<string, LogFile>, name: string, entry: Object, ms: int): (r: map<string, LogFile>)
    ensures r.Keys == files.Keys + {name}
    ensures r[name].entries == (if name in files then files[name].entries else []) + [entry]
    ensures forall n :: n in files && n != name ==> r[n] == files[n]
  {
    files[name := LogFile((if name in files then files[name].entries else []) + [entry], ms)]
  }

  /** Failures of the file system calls the sweep makes. */
  datatype FsFaults = FsFaults(readdirFails: bool, statFails: set<string>, unlinkFails: set<string>)

  predicate IsLogFileName(name: string) {
    StartsWith(name, LogPrefix) && EndsWith(name, LogSuffix)
  }

  /** `files.filter(f => f.startsWith('security-') && f.endsWith('.log'))`. */
  function LogFilesIn(names: seq<string>): (r: seq<string>)
    ensures forall n :: n in r ==> n in names
    ensures Distinct(names) ==> Distinct(r)
  {
    if names == [] then []
    else
      var rest := LogFilesIn(names[1..]);
      DistinctCons(names);
      if IsLogFileName(names[0]) then DistinctPrepend(names[0], rest); [names[0]] + rest else rest
  }

  lemma DistinctCons(names: seq<string>)
    requires names != []
    ensures Distinct(names) ==> names[0] !in names[1..] && Distinct(names[1..])
  {
    if Distinct(names) {
      forall j | 0 <= j < |names[1..]| ensures names[1..][j] != names[0] {
        assert names[1..][j] == names[j + 1];
      }
    }
  }

  lemma DistinctPrepend(n: string, rest: seq<string>)
    ensures n !in rest && Distinct(rest) ==> Distinct([n] + rest)
  {
    if n !in rest && Distinct(rest) {
      var s := [n] + rest;
      forall i, j | 0 <= i < j < |s| ensures s[i] != s[j] {
        assert s[j] == rest[j - 1];
        if i > 0 {
          assert s[i] == rest[i - 1];
        }
      }
    }
  }

  /** The filter keeps exactly the names of the log files. */
  lemma {:induction false} LogFilesInIff(names: seq<string>)
    ensures forall n :: n in LogFilesIn(names) <==> n in names && IsLogFileName(n)
  {
    if names != [] {
      LogFilesInIff(names[1..]);
      assert forall n :: n in names <==> n == names[0] || n in names[1..];
    }
  }

  predicate Distinct(names: seq<string>) {
    forall i, j :: 0 <= i < j < |names| ==> names[i] != names[j]
  }

  /** `readdirSync` lists every file of the directory once, in some order. */
  ghost predicate IsListing(order: seq<string>, files: map<string, LogFile>) {
    Distinct(order) && forall n :: n in order <==> n in files
  }

  predicate Expired(f: LogFile, now: int, maxAge: int) {
    now - f.mtime > maxAge
  }

  datatype SweepOutcome = SweepOutcome(deleted: seq<string>, failed: bool)

  /** What the `forEach` over the candidate files does: stat each, unlink the
      expired ones, and stop at the first call that throws. */
  function SweepPlan(cands: seq<string>, files: map<string, LogFile>, now: int, maxAge: int, faults: FsFaults): (o: SweepOutcome)
    requires forall n :: n in cands ==> n in files
    ensures |o.deleted| <= |cands|
    ensures forall j :: 0 <= j < |o.deleted| ==> o.deleted[j] in cands && Expired(files[o.deleted[j]], now, maxAge)
  {
    if cands == [] then SweepOutcome([], false)
    else
      var c := cands[0];
      if c in faults.statFails then SweepOutcome([], true)
      else if Expired(files[c], now, maxAge) then
        if c in faults.unlinkFails then SweepOutcome([], true)
        else
          var rest := SweepPlan(cands[1..], files, now, maxAge, faults);
          SweepOutcome([c] + rest.deleted, rest.failed)
      else SweepPlan(cands[1..], files, now, maxAge, faults)
  }

  /** The sweep deletes only expired candidates; when no call fails it deletes all
      of them, and it fails only when a call on some candidate fails. */
  lemma {:induction false} SweepPlanSound(cands: seq<string>, files: map<string, LogFile>, now: int, maxAge: int, faults: FsFaults)
    requires forall n :: n in cands ==> n in files
    ensures var o := SweepPlan(cands, files, now, maxAge, faults);
      && (forall n :: n in o.deleted ==> n in cands && Expired(files[n], now, maxAge))
      && (!o.failed ==> forall n :: n in cands && Expired(files[n], now, maxAge) ==> n in o.deleted)
      && ((forall n :: n in cands ==> n !in faults.statFails && n !in faults.unlinkFails) ==> !o.failed)
  {
    if cands != [] {
      SweepPlanSound(cands[1..], files, now, maxAge, faults);
      assert forall n :: n in cands ==> n == cands[0] || n in cands[1..];
    }
  }

  const DefaultDaysToKeep: int := 30

  /** What `cleanupOldLogs(daysToKeep)` deletes, reading the directory in
      `order`. A failing `readdirSync` deletes nothing. */
  function Cleanup(order: seq<string>, files: map<string, LogFile>, now: int, daysToKeep: int, faults: FsFaults): (o: SweepOutcome)
    requires IsListing(order, files)
    ensures faults.readdirFails ==> o.deleted == [] && o.failed
    ensures forall n :: n in o.deleted ==>
              n in order && n in files && IsLogFileName(n) && Expired(files[n], now, daysToKeep * IsoDate.MsPerDay)
  {
    LogFilesInIff(order);
    if faults.readdirFails then SweepOutcome([], true)
    else SweepPlan(LogFilesIn(order), files, now, daysToKeep * IsoDate.MsPerDay, faults)
  }

  /** The sweep deletes a file only if its name starts with `security-`, ends
      with `.log`, and its age exceeds the retention period; without failures it
      deletes every such file. */
  lemma CleanupDeletesExactlyExpiredLogs(order: seq<string>, files: map<string, LogFile>, now: int, daysToKeep: int, faults: FsFaults)
    requires IsListing(order, files)
    ensures forall n :: n in Cleanup(order, files, now, daysToKeep, faults).deleted ==>
              n in files && IsLogFileName(n) && now - files[n].mtime > daysToKeep * 86400000
    ensures faults == FsFaults(false, {}, {}) ==>
              forall n :: n in files ==>
                (n in Cleanup(order, files, now, daysToKeep, faults).deleted
                 <==> IsLogFileName(n) && now - files[n].mtime > daysToKeep * 86400000)
  {
    LogFilesInIff(order);
    if !faults.readdirFails {
      SweepPlanSound(LogFilesIn(order), files, now, daysToKeep * IsoDate.MsPerDay, faults);
    }
  }

  /** Log files written today, ten days ago and forty days ago: the default 30-day
      retention deletes only the oldest, and a file of another name of any age
      is kept. */
  function ExampleFiles(now: int): map<string, LogFile> {
    map["security-a.log" := LogFile([], now), "security-b.log" := LogFile([], now - 10 * 86400000),
        "security-c.log" := LogFile([], now - 40 * 86400000), "notes.txt" := LogFile([], now - 400 * 86400000)]
  }

  const ExampleOrder: seq<string> := ["notes.txt", "security-a.log", "security-b.log", "security-c.log"]

  lemma RetentionExample(now: int)
    ensures IsListing(ExampleOrder, ExampleFiles(now))
    ensures Cleanup(ExampleOrder, ExampleFiles(now), now, DefaultDaysToKeep, FsFaults(false, {}, {})).deleted == ["security-c.log"]
  {
    ExampleCandidates();
    ExampleSweep(now);
  }

  lemma ExampleCandidates()
    ensures LogFilesIn(ExampleOrder) == ["security-a.log", "security-b.log", "security-c.log"]
  {
    var order := ExampleOrder;
    assert !IsLogFileName("notes.txt");
    assert IsLogFileName("security-a.log") && IsLogFileName("security-b.log") && IsLogFileName("security-c.log");
    assert order[1..][1..][1..][1..] == [];
    assert LogFilesIn(order[1..][1..][1..]) == ["security-c.log"];
    assert LogFilesIn(order[1..][1..]) == ["security-b.log", "security-c.log"];
  }

  lemma ExampleSweep(now: int)
    ensures SweepPlan(["security-a.log", "security-b.log", "security-c.log"], ExampleFiles(now), now,
                      DefaultDaysToKeep * IsoDate.MsPerDay, FsFaults(false, {}, {})).deleted == ["security-c.log"]
  {
    var files, cands := ExampleFiles(now), ["security-a.log", "security-b.log", "security-c.log"];
    var maxAge := DefaultDaysToKeep * IsoDate.MsPerDay;
    var none := FsFaults(false, {}, {});
    assert cands[1..][1..][1..] == [];
    assert SweepPlan(cands[1..][1..], files, now, maxAge, none).deleted == ["security-c.log"];
    assert SweepPlan(cands[1..], files, now, maxAge, none).deleted == ["security-c.log"];
  }

  // ---------------------------------------------------------------------------
  // The audit object

  const WriteFailure: string := "Failed to write security audit log"
  const CleanupFailure: string := "Failed to cleanup old logs"

  class SecurityAudit {
    const logDir: string
    /** The files of `logDir`. */
    var files: map<string, LogFile>
    /** What went to `console.error`. */
    var errors: seq<string>

    constructor (logDir: string, existing: map<string, LogFile>)
      ensures this.logDir == logDir && files == existing && errors == []
    {
      this.logDir := logDir;
      files := existing;
      errors := [];
    }

    /** `getLogFilePath(date)`. */
    function LogFilePath(ms: int): (p: string)
      ensures EndsWith(p, LogFileName(ms))
    {
      PathJoin(logDir, LogFileName(ms))
    }

    /** `log(event, data)`. The clock is read twice: for the entry's timestamp
        (`stampMs`) and, in `getLogFilePath`'s default argument, for the file
        (`pathMs`). A failing append (`writable` false) is reported on the error
        channel and never reaches the caller. */
    method Log(event: string, data: Object, stampMs: int, pathMs: int, writable: bool)
      modifies this
      ensures writable ==> files == Appended(old(files), LogFileName(pathMs), MakeEntry(stampMs, Event(event, data)), pathMs)
      ensures writable ==> errors == old(errors)
      ensures !writable ==> files == old(files) && errors == old(errors) + [WriteFailure]
    {
      var entry := MakeEntry(stampMs, Event(event, data));
      var name := LogFileName(pathMs);
      if writable {
        var previous := if name in files then files[name].entries else [];
        files := files[name := LogFile(previous + [entry], pathMs)];
      } else {
        errors := errors + [WriteFailure];
      }
    }

    /** `cleanupOldLogs(daysToKeep)`, reading the directory in `order`. Any
        failure ends the sweep and is reported; none reaches the caller. */
    method CleanupOldLogs(now: int, order: seq<string>, faults: FsFaults, daysToKeep: int := DefaultDaysToKeep)
      returns (deleted: seq<string>)
      requires IsListing(order, files)
      modifies this
      ensures deleted == Cleanup(order, old(files), now, daysToKeep, faults).deleted
      ensures files == old(files) - set n | n in deleted
      ensures errors == old(errors) + (if Cleanup(order, old(files), now, daysToKeep, faults).failed then [CleanupFailure] else [])
    {
      deleted := [];
      if faults.readdirFails {
        errors := errors + [CleanupFailure];
        SameFiles(files, old(files), deleted);
        return;
      }
      var maxAge := daysToKeep * 24 * 60 * 60 * 1000;
      var remaining, failed;
      remaining, deleted, failed := Sweep(LogFilesIn(order), files, now, maxAge, faults);
      files := remaining;
      if failed {
        errors := errors + [CleanupFailure];
      }
    }
  }

  /** The `forEach` over the candidate files on the directory `files`: the
      directory it leaves, the files it deleted, and whether a call threw. */
  method Sweep(cands: seq<string>, files: map<string, LogFile>, now: int, maxAge: int, faults: FsFaults)
    returns (remaining: map<string, LogFile>, deleted: seq<string>, failed: bool)
    requires forall n :: n in cands ==> n in files
    ensures deleted == SweepPlan(cands, files, now, maxAge, faults).deleted
    ensures failed == SweepPlan(cands, files, now, maxAge, faults).failed
    ensures remaining == files - set n | n in deleted
  {
    remaining, deleted, failed := files, [], false;
    ghost var plan := SweepPlan(cands, files, now, maxAge, faults);
    assert cands[0..] == cands;
    var i := 0;
    while i < |cands|
      invariant 0 <= i <= |cands|
      invariant remaining == files - set n | n in deleted
      invariant plan.deleted == deleted + SweepPlan(cands[i..], files, now, maxAge, faults).deleted
      invariant plan.failed == SweepPlan(cands[i..], files, now, maxAge, faults).failed
    {
      var name := cands[i];
      SweepPlanAt(cands, i, files, now, maxAge, faults);
      if name in faults.statFails {
        failed := true;
        return;
      }
      if now - files[name].mtime > maxAge {
        if name in faults.unlinkFails {
          failed := true;
          return;
        }
        RemoveOne(files, deleted, name);
        remaining := remaining - {name};
        deleted := deleted + [name];
      }
      i := i + 1;
    }
  }

  lemma RemoveOne(files: map<string, LogFile>, deleted: seq<string>, name: string)
    ensures (files - set n | n in deleted) - {name} == files - set n | n in deleted + [name]
  {
  }

  /** One step of the sweep, at position `i` of the candidates. */
  lemma SweepPlanAt(cands: seq<string>, i: nat, files: map<string, LogFile>, now: int, maxAge: int, faults: FsFaults)
    requires i < |cands| && forall n :: n in cands ==> n in files
    ensures SweepPlan(cands[i..], files, now, maxAge, faults) ==
      var c := cands[i];
      if c in faults.statFails then SweepOutcome([], true)
      else if Expired(files[c], now, maxAge) then
        if c in faults.unlinkFails then SweepOutcome([], true)
        else
          var rest := SweepPlan(cands[i + 1..], files, now, maxAge, faults);
          SweepOutcome([c] + rest.deleted, rest.failed)
      else SweepPlan(cands[i + 1..], files, now, maxAge, faults)
  {
    assert cands[i..][0] == cands[i] && cands[i..][1..] == cands[i + 1..];
  }

  lemma SameFiles(files: map<string, LogFile>, original: map<string, LogFile>, deleted: seq<string>)
    requires forall n :: n in files <==> n in original && n !in deleted
    requires forall n :: n in files ==> files[n] == original[n]
    ensures files == original - set n | n in deleted
  {
  }
}
