/** The login brute-force guard: a table from an identifier (`<ip>-<username>`)
    to the times, in milliseconds, of its recent failed logins. A check prunes
    the identifier's list to a sliding 15-minute window and locks the login once
    five failures remain in it. Time readings are parameters. */
module BruteForce {

  import opened Wrappers
  import opened Text
  import opened Objects
  import AuditLog

  const MaxFailedAttempts: nat := 5
  const LockoutDuration: int := 15 * 60 * 1000
  const MsPerMinute: int := 60000

  type Table = map<string, seq<int>>

  /** A failure at `t` still counts at `now`. */
  predicate Recent(t: int, now: int) {
    now - t < LockoutDuration
  }

  /** `attempts.filter((time) => now - time < LOCKOUT_DURATION)`. */
  function Prune(ts: seq<int>, now: int): (r: seq<int>)
    ensures |r| <= |ts|
    ensures forall i :: 0 <= i < |r| ==> Recent(r[i], now)
  {
    if ts == [] then []
    else (if Recent(ts[0], now) then [ts[0]] else []) + Prune(ts[1..], now)
  }

  /** `a` is `b` with some elements removed, the rest in their order. */
  predicate Subsequence(a: seq<int>, b: seq<int>)
    decreases |b|
  {
    if a == [] then true
    else if b == [] then false
    else (a[0] == b[0] && Subsequence(a[1..], b[1..])) || Subsequence(a, b[1..])
  }

  /** Pruning keeps exactly the recent failures, in their order. */
  lemma {:induction false} PruneMembers(ts: seq<int>, now: int)
    ensures forall t :: t in Prune(ts, now) <==> t in ts && Recent(t, now)
    ensures Subsequence(Prune(ts, now), ts)
  {
    if ts != [] {
      PruneMembers(ts[1..], now);
      assert forall t :: t in ts <==> t == ts[0] || t in ts[1..];
      var r := Prune(ts, now);
      if Recent(ts[0], now) {
        assert r[0] == ts[0] && r[1..] == Prune(ts[1..], now);
      } else {
        assert r == Prune(ts[1..], now);
      }
    }
  }

  /** A list whose failures are all recent is left as it is. */
  lemma {:induction false} PruneAllRecent(ts: seq<int>, now: int)
    requires forall i :: 0 <= i < |ts| ==> Recent(ts[i], now)
    ensures Prune(ts, now) == ts
  {
    if ts != [] {
      PruneAllRecent(ts[1..], now);
      assert [ts[0]] + ts[1..] == ts;
    }
  }

  /** A list whose failures are all out of the window is emptied. */
  lemma {:induction false} PruneNoneRecent(ts: seq<int>, now: int)
    requires forall i :: 0 <= i < |ts| ==> !Recent(ts[i], now)
    ensures Prune(ts, now) == []
  {
    if ts != [] {
      PruneNoneRecent(ts[1..], now);
    }
  }

  /** Pruning twice at the same time is pruning once. */
  lemma PruneIdempotent(ts: seq<int>, now: int)
    ensures Prune(Prune(ts, now), now) == Prune(ts, now)
  {
    PruneAllRecent(Prune(ts, now), now);
  }

  /** The window only moves forward: pruning at `t1` and then at a later `t2`
      is pruning at `t2`. */
  lemma {:induction false} PruneLater(ts: seq<int>, t1: int, t2: int)
    requires t1 <= t2
    ensures Prune(Prune(ts, t1), t2) == Prune(ts, t2)
  {
    if ts != [] {
      PruneLater(ts[1..], t1, t2);
      var head := if Recent(ts[0], t1) then [ts[0]] else [];
      PruneConcat(head, Prune(ts[1..], t1), t2);
      if Recent(ts[0], t1) {
        assert head[1..] == [];
      }
    }
  }

  lemma {:induction false} PruneConcat(a: seq<int>, b: seq<int>, now: int)
    ensures Prune(a + b, now) == Prune(a, now) + Prune(b, now)
  {
    if a == [] {
      assert a + b == b;
    } else {
      assert (a + b)[0] == a[0] && (a + b)[1..] == a[1..] + b;
      PruneConcat(a[1..], b, now);
    }
  }

  /** The smallest timestamp: `Math.min(...ts)`. */
  function MinOf(ts: seq<int>): (m: int)
    requires ts != []
    ensures m in ts
    ensures forall i :: 0 <= i < |ts| ==> m <= ts[i]
  {
    if |ts| == 1 then ts[0]
    else
      var rest := MinOf(ts[1..]);
      assert forall i :: 1 <= i < |ts| ==> ts[i] == ts[1..][i - 1];
      if ts[0] <= rest then ts[0] else rest
  }

  /** `Math.ceil(x / d)` for a positive divisor. */
  function CeilDiv(x: int, d: int): (q: int)
    requires d > 0
    ensures (q - 1) * d < x <= q * d
  {
    -((-x) / d)
  }

  /** What `checkBruteForce` returns: `{ allowed: true, attemptsLeft }` or
      `{ allowed: false, timeLeft }` (minutes). */
  datatype Decision = Allowed(attemptsLeft: int) | Locked(timeLeft: int)

  /** The decision on the pruned list `recent`. */
  function Decide(recent: seq<int>, now: int): (d: Decision)
    ensures d.Locked? <==> |recent| >= MaxFailedAttempts
    ensures d.Allowed? ==> d.attemptsLeft == MaxFailedAttempts - |recent| && 1 <= d.attemptsLeft <= MaxFailedAttempts
    ensures d.Locked? ==>
      var remaining := LockoutDuration - (now - MinOf(recent));
      (d.timeLeft - 1) * MsPerMinute < remaining <= d.timeLeft * MsPerMinute
  {
    if |recent| >= MaxFailedAttempts then
      Locked(CeilDiv(LockoutDuration - (now - MinOf(recent)), MsPerMinute))
    else Allowed(MaxFailedAttempts - |recent|)
  }

  /** The decision of a check at `now` on the table `table`: locked exactly when
      the identifier has at least five failures inside the window, and otherwise
      allowed with the failures still to go before the lock. */
  function CheckDecision(table: Table, id: string, now: int): (d: Decision)
    ensures var recent := if id in table then |Prune(table[id], now)| else 0;
      && (d.Locked? <==> recent >= MaxFailedAttempts)
      && (d.Allowed? ==> d.attemptsLeft == MaxFailedAttempts - recent && 1 <= d.attemptsLeft <= MaxFailedAttempts)
  {
    if id !in table then Allowed(MaxFailedAttempts) else Decide(Prune(table[id], now), now)
  }

  /** The table after a check: the identifier's list pruned, if it has one. */
  function Checked(table: Table, id: string, now: int): (r: Table)
    ensures r.Keys == table.Keys
    ensures forall k :: k in table && k != id ==> r[k] == table[k]
  {
    if id !in table then table else table[id := Prune(table[id], now)]
  }

  /** The table after `recordFailedAttempt`. */
  function Recorded(table: Table, id: string, now: int): (r: Table)
    ensures r.Keys == table.Keys + {id}
    ensures r[id] == (if id in table then table[id] else []) + [now]
    ensures forall k :: k in table && k != id ==> r[k] == table[k]
  {
    table[id := (if id in table then table[id] else []) + [now]]
  }

  /** The table after `clearFailedAttempts`. */
  function Cleared(table: Table, id: string): (r: Table)
    ensures r.Keys == table.Keys - {id}
    ensures forall k :: k in r ==> r[k] == table[k]
  {
    table - {id}
  }

  /** The table after the periodic sweep: every list pruned, the empty ones dropped. */
  function Swept(table: Table, now: int): (r: Table)
    ensures forall k :: k in r <==> k in table && Prune(table[k], now) != []
    ensures forall k :: k in r ==> r[k] == Prune(table[k], now) && r[k] != []
  {
    map k | k in table && Prune(table[k], now) != [] :: Prune(table[k], now)
  }

  /** The part of an identifier before its first `-`: `identifier.split('-')[0]`,
      the client address for identifiers of the form `<ip>-<username>`. */
  function IpOf(identifier: string): (ip: string)
    ensures '-' !in ip
    ensures StartsWith(identifier, ip)
    ensures '-' in identifier ==> identifier[|ip|] == '-'
    ensures '-' !in identifier ==> ip == identifier
  {
    SplitHead(identifier, '-');
    Split(identifier, '-')[0]
  }

  // ---------------------------------------------------------------------------
  // Properties of the guard

  /** An identifier that has no entry is allowed five attempts, and the check
      does not touch the table. */
  lemma CheckAbsent(table: Table, id: string, now: int)
    requires id !in table
    ensures CheckDecision(table, id, now) == Allowed(5)
    ensures Checked(table, id, now) == table
  {
  }

  /** Pruning keeps every recent failure as often as it occurs and drops the
      others. */
  lemma {:induction false} PruneMultiset(ts: seq<int>, now: int, t: int)
    ensures multiset(Prune(ts, now))[t] == if Recent(t, now) then multiset(ts)[t] else 0
  {
    if ts != [] {
      PruneMultiset(ts[1..], now, t);
      assert ts == [ts[0]] + ts[1..];
      assert multiset(ts) == multiset([ts[0]]) + multiset(ts[1..]);
    }
  }

  /** A locked check always reports at least one minute when every recent
      failure lies in the past or present, and never more than fifteen. */
  lemma LockedTimeLeft(table: Table, id: string, now: int)
    requires CheckDecision(table, id, now).Locked?
    ensures CheckDecision(table, id, now).timeLeft >= 1
    ensures (forall i :: 0 <= i < |table[id]| ==> table[id][i] <= now) ==>
              CheckDecision(table, id, now).timeLeft <= 15
  {
    var recent := Prune(table[id], now);
    PruneMembers(table[id], now);
    var m := MinOf(recent);
    assert m in table[id];
  }

  /** Checking again at the same time changes nothing and decides the same. */
  lemma CheckTwice(table: Table, id: string, now: int)
    ensures Checked(Checked(table, id, now), id, now) == Checked(table, id, now)
    ensures CheckDecision(Checked(table, id, now), id, now) == CheckDecision(table, id, now)
  {
    if id in table {
      PruneIdempotent(table[id], now);
    }
  }

  /** Five failures recorded for a fresh identifier, all still in the window,
      lock it at the next check. */
  lemma FiveFailuresLock(table: Table, id: string, t: seq<int>, now: int)
    requires id !in table && |t| == 5
    requires forall i :: 0 <= i < 5 ==> Recent(t[i], now)
    ensures var after := Recorded(Recorded(Recorded(Recorded(Recorded(table, id, t[0]), id, t[1]), id, t[2]), id, t[3]), id, t[4]);
            after[id] == t && CheckDecision(after, id, now).Locked?
  {
    var after := Recorded(Recorded(Recorded(Recorded(Recorded(table, id, t[0]), id, t[1]), id, t[2]), id, t[3]), id, t[4]);
    assert after[id] == [t[0], t[1], t[2], t[3], t[4]];
    assert after[id] == t;
    PruneAllRecent(t, now);
  }

  /** Four recent failures leave one attempt. */
  lemma FourFailuresLeaveOne(ts: seq<int>, now: int)
    requires |ts| == 4 && forall i :: 0 <= i < 4 ==> Recent(ts[i], now)
    ensures CheckDecision(map["id" := ts], "id", now) == Allowed(1)
  {
    PruneAllRecent(ts, now);
  }

  /** A lock lifts by itself: once every failure is fifteen minutes old the
      identifier has five attempts again. */
  lemma LockExpires(table: Table, id: string, now: int)
    requires id in table && forall i :: 0 <= i < |table[id]| ==> table[id][i] + LockoutDuration <= now
    ensures CheckDecision(table, id, now) == Allowed(5)
    ensures Checked(table, id, now)[id] == []
  {
    PruneNoneRecent(table[id], now);
  }

  /** A successful login clears the identifier: its next check allows five
      attempts. */
  lemma ClearUnlocks(table: Table, id: string, now: int)
    ensures id !in Cleared(table, id)
    ensures CheckDecision(Cleared(table, id), id, now) == Allowed(5)
  {
  }

  /** The sweep at `t1` cannot be observed by any check at a later `t2`: the
      decision and the pruned list are those of the unswept table. */
  lemma SweepInvisible(table: Table, id: string, t1: int, t2: int)
    requires t1 <= t2
    ensures CheckDecision(Swept(table, t1), id, t2) == CheckDecision(table, id, t2)
    ensures id in Swept(table, t1) ==> Checked(Swept(table, t1), id, t2)[id] == Checked(table, id, t2)[id]
  {
    if id in table {
      PruneLater(table[id], t1, t2);
    }
  }

  /** A failure recorded at `now` extends the pruned list by that failure. */
  lemma RecordThenPrune(table: Table, id: string, now: int)
    ensures Prune(Recorded(table, id, now)[id], now) ==
            Prune(if id in table then table[id] else [], now) + [now]
  {
    var old_ := if id in table then table[id] else [];
    PruneConcat(old_, [now], now);
  }

  /** Another failure, even a sixth one during a lock, does not restart the
      window: the oldest recent failure, from which the lock's remaining time
      is measured, stays the same. */
  lemma RecordKeepsWindowStart(table: Table, id: string, now: int)
    requires id in table && Prune(table[id], now) != []
    requires forall i :: 0 <= i < |table[id]| ==> table[id][i] <= now
    ensures Prune(Recorded(table, id, now)[id], now) == Prune(table[id], now) + [now]
    ensures MinOf(Prune(Recorded(table, id, now)[id], now)) == MinOf(Prune(table[id], now))
    ensures CheckDecision(table, id, now).Locked? ==>
              CheckDecision(Recorded(table, id, now), id, now) == CheckDecision(table, id, now)
  {
    var p := Prune(table[id], now);
    RecordThenPrune(table, id, now);
    PruneMembers(table[id], now);
    forall i | 0 <= i < |p| ensures p[i] <= now {
      assert p[i] in table[id];
    }
    MinOfSnoc(p, now);
  }

  /** Appending an element no smaller than the others keeps the minimum. */
  lemma MinOfSnoc(p: seq<int>, x: int)
    requires p != [] && forall i :: 0 <= i < |p| ==> p[i] <= x
    ensures MinOf(p + [x]) == MinOf(p)
  {
    var m, m' := MinOf(p), MinOf(p + [x]);
    assert m in p + [x];
    assert m' in p || m' == x;
  }

  // ---------------------------------------------------------------------------
  // The guard

  class BruteForceGuard {
    /** `failedLoginAttempts`. */
    var attempts: Table
    const audit: AuditLog.SecurityAudit

    constructor (audit: AuditLog.SecurityAudit)
      ensures attempts == map[] && this.audit == audit
    {
      attempts := map[];
      this.audit := audit;
    }

    /** `checkBruteForce(identifier)` at time `now`. A lock is reported to the
        audit log (whose own clock readings are `stampMs` and `pathMs`). */
    method CheckBruteForce(identifier: string, now: int, stampMs: int, pathMs: int, writable: bool)
      returns (d: Decision)
      modifies this, audit
      ensures d == CheckDecision(old(attempts), identifier, now)
      ensures attempts == Checked(old(attempts), identifier, now)
      ensures d.Locked? ==>
        var ev := AuditLog.BruteForceDetected(identifier, IpOf(identifier), |attempts[identifier]|);
        (writable ==> audit.files == AuditLog.Appended(old(audit.files), AuditLog.LogFileName(pathMs),
                                                       AuditLog.MakeEntry(stampMs, ev), pathMs))
        && (!writable ==> audit.files == old(audit.files))
        && audit.errors == (if writable then old(audit.errors) else old(audit.errors) + [AuditLog.WriteFailure])
      ensures d.Allowed? ==> audit.files == old(audit.files) && audit.errors == old(audit.errors)
    {
      if identifier !in attempts {
        return Allowed(MaxFailedAttempts);
      }
      var recent := Prune(attempts[identifier], now);
      attempts := attempts[identifier := recent];
      if |recent| >= MaxFailedAttempts {
        var oldest := MinOf(recent);
        var timeLeft := CeilDiv(LockoutDuration - (now - oldest), MsPerMinute);
        var ev := AuditLog.BruteForceDetected(identifier, IpOf(identifier), |recent|);
        audit.Log(ev.kind, ev.data, stampMs, pathMs, writable);
        return Locked(timeLeft);
      }
      return Allowed(MaxFailedAttempts - |recent|);
    }

    /** `recordFailedAttempt(identifier)` at time `now`. */
    method RecordFailedAttempt(identifier: string, now: int)
      modifies this
      ensures attempts == Recorded(old(attempts), identifier, now)
    {
      var list := if identifier in attempts then attempts[identifier] else [];
      attempts := attempts[identifier := list + [now]];
    }

    /** `clearFailedAttempts(identifier)`. */
    method ClearFailedAttempts(identifier: string)
      modifies this
      ensures attempts == Cleared(old(attempts), identifier)
    {
      attempts := attempts - {identifier};
    }

    /** The body of the `setInterval` callback, run at time `now`. */
    method Sweep(now: int)
      modifies this
      ensures attempts == Swept(old(attempts), now)
    {
      var pending := attempts.Keys;
      ghost var original := attempts;
      while pending != {}
        invariant pending <= original.Keys
        invariant forall k :: k in pending ==> k in attempts && attempts[k] == original[k]
        invariant forall k :: k in attempts <==>
          (k in pending && k in original) || (k in original && k !in pending && Prune(original[k], now) != [])
        invariant forall k :: k in attempts && k !in pending ==> attempts[k] == Prune(original[k], now)
        decreases pending
      {
        var id :| id in pending;
        var recent := Prune(attempts[id], now);
        if recent == [] {
          attempts := attempts - {id};
        } else {
          attempts := attempts[id := recent];
        }
        pending := pending - {id};
      }
    }
  }
}
