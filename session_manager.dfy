/**
 * The in-memory session table of app/session_manager.py.
 *
 * A session id is derived from the API key. A record is live while
 * `now - lastActivity < timeout`; a stale record stays in the table until
 * the cleanup pass removes it. The wall clock is the explicit parameter `now`.
 */
module Sessions {
  import opened Wrappers

  datatype Session = Session(
    apiKey: string,
    createdAt: int,
    lastActivity: int,
    requestCount: nat,
    sectorsAnalyzed: seq<string>)

  const IdPrefix: string := "session_"

  /** Python's `key[:8]`: the first eight characters, or the whole key when it is shorter. */
  function KeyPrefix(key: string): (p: string)
    ensures |p| <= 8 && p <= key
    ensures |key| >= 8 ==> |p| == 8
    ensures |key| < 8 ==> p == key
  {
    if |key| <= 8 then key else key[..8]
  }

  /** The session id of a key. */
  function SessionId(key: string): (id: string)
    ensures |IdPrefix| <= |id| <= |IdPrefix| + 8
    ensures id[..|IdPrefix|] == IdPrefix
  {
    IdPrefix + KeyPrefix(key)
  }

  /** Two keys share a session id exactly when they share their first eight characters. */
  lemma SessionIdIffPrefix(k1: string, k2: string)
    ensures SessionId(k1) == SessionId(k2) <==> KeyPrefix(k1) == KeyPrefix(k2)
  {
  }

  predicate IsLive(s: Session, now: int, timeout: int)
  {
    now - s.lastActivity < timeout
  }

  predicate NoDuplicates(xs: seq<string>)
  {
    forall i, j :: 0 <= i < j < |xs| ==> xs[i] != xs[j]
  }

  /** The record that a first or a post-expiry request creates. */
  function NewSession(key: string, now: int): Session
  {
    Session(key, now, now, 1, [])
  }

  /** What every stored record satisfies: it sits under its own key's id, counts a request, repeats no sector. */
  predicate WellFormed(id: string, s: Session)
  {
    id == SessionId(s.apiKey) && s.requestCount >= 1 && NoDuplicates(s.sectorsAnalyzed)
  }

  /** The sector list after recording `sector`: appended only when absent. */
  function AddSector(sectors: seq<string>, sector: string): (r: seq<string>)
    ensures sector in r
    ensures forall x :: x in r <==> x in sectors || x == sector
    ensures sectors <= r && |r| <= |sectors| + 1
    ensures NoDuplicates(sectors) ==> NoDuplicates(r)
  {
    if sector in sectors then sectors else sectors + [sector]
  }

  /** Recording a sector a second time changes nothing. */
  lemma AddSectorIdempotent(sectors: seq<string>, sector: string)
    ensures AddSector(AddSector(sectors, sector), sector) == AddSector(sectors, sector)
  {
  }

  /** The table after `get_or_create_session(key)` at `now`. */
  function GetOrCreate(sessions: map<string, Session>, key: string, now: int, timeout: int)
    : (m: map<string, Session>)
    ensures m.Keys == sessions.Keys + {SessionId(key)}
    ensures forall id :: id in sessions && id != SessionId(key) ==> m[id] == sessions[id]
    ensures var id := SessionId(key); var s := m[id];
      if id in sessions && IsLive(sessions[id], now, timeout) then
        && s.lastActivity == now
        && s.requestCount == sessions[id].requestCount + 1
        && s.apiKey == sessions[id].apiKey
        && s.createdAt == sessions[id].createdAt
        && s.sectorsAnalyzed == sessions[id].sectorsAnalyzed
      else
        s == NewSession(key, now)
  {
    var id := SessionId(key);
    if id in sessions && IsLive(sessions[id], now, timeout) then
      sessions[id := sessions[id].(lastActivity := now, requestCount := sessions[id].requestCount + 1)]
    else
      sessions[id := NewSession(key, now)]
  }

  /** The table after `track_analysis(id, sector)`: only that record's sector list can change. */
  function Track(sessions: map<string, Session>, id: string, sector: string): (m: map<string, Session>)
    ensures m.Keys == sessions.Keys
    ensures forall other :: other in sessions && other != id ==> m[other] == sessions[other]
    ensures id in sessions ==>
      && m[id].apiKey == sessions[id].apiKey
      && m[id].createdAt == sessions[id].createdAt
      && m[id].lastActivity == sessions[id].lastActivity
      && m[id].requestCount == sessions[id].requestCount
      && m[id].sectorsAnalyzed == AddSector(sessions[id].sectorsAnalyzed, sector)
  {
    if id in sessions then
      sessions[id := sessions[id].(sectorsAnalyzed := AddSector(sessions[id].sectorsAnalyzed, sector))]
    else
      sessions
  }

  /** The table after `cleanup_expired()` at `now`: the live records, unchanged. */
  function Cleanup(sessions: map<string, Session>, now: int, timeout: int): (m: map<string, Session>)
    ensures forall id :: id in m <==> id in sessions && IsLive(sessions[id], now, timeout)
    ensures forall id :: id in m ==> m[id] == sessions[id]
  {
    map id | id in sessions && IsLive(sessions[id], now, timeout) :: sessions[id]
  }

  /** Two requests of one key within the timeout: the second extends the first's session. */
  lemma TouchWithinTimeout(sessions: map<string, Session>, key: string, t0: int, t1: int, timeout: int)
    requires t1 - t0 < timeout
    ensures var m1 := GetOrCreate(sessions, key, t0, timeout);
      var m2 := GetOrCreate(m1, key, t1, timeout);
      var id := SessionId(key);
      && m2[id].requestCount == m1[id].requestCount + 1
      && m2[id].createdAt == m1[id].createdAt
      && m2[id].sectorsAnalyzed == m1[id].sectorsAnalyzed
  {
  }

  /** A request after a full timeout of inactivity starts the session afresh under the same id. */
  lemma TouchAfterTimeout(sessions: map<string, Session>, key: string, t0: int, t1: int, timeout: int)
    requires t1 - t0 >= timeout
    ensures var m2 := GetOrCreate(GetOrCreate(sessions, key, t0, timeout), key, t1, timeout);
      m2[SessionId(key)] == NewSession(key, t1)
  {
  }

  /** A stale record that is still stored is treated exactly as an absent one. */
  lemma StaleIsAbsent(sessions: map<string, Session>, key: string, now: int, timeout: int)
    requires SessionId(key) in sessions && !IsLive(sessions[SessionId(key)], now, timeout)
    ensures GetOrCreate(sessions, key, now, timeout)
         == GetOrCreate(sessions - {SessionId(key)}, key, now, timeout)
  {
  }

  /**
   * Cleanup before or after a request at the same instant gives the same
   * table: the removed records are exactly the ones a request would reset.
   */
  lemma CleanupCommutesWithTouch(sessions: map<string, Session>, key: string, now: int, timeout: int)
    requires timeout > 0
    ensures GetOrCreate(Cleanup(sessions, now, timeout), key, now, timeout)
         == Cleanup(GetOrCreate(sessions, key, now, timeout), now, timeout)
  {
  }

  /** Cleanup at one instant is idempotent. */
  lemma CleanupIdempotent(sessions: map<string, Session>, now: int, timeout: int)
    ensures Cleanup(Cleanup(sessions, now, timeout), now, timeout) == Cleanup(sessions, now, timeout)
  {
  }

  /** Tracking the same sector twice is tracking it once. */
  lemma TrackIdempotent(sessions: map<string, Session>, id: string, sector: string)
    ensures Track(Track(sessions, id, sector), id, sector) == Track(sessions, id, sector)
  {
  }

  class SessionManager {
    const timeout: int
    var sessions: map<string, Session>

    ghost predicate Valid()
      reads this
    {
      forall id :: id in sessions ==> WellFormed(id, sessions[id])
    }

    constructor (timeout: int := 3600)
      ensures Valid()
      ensures this.timeout == timeout && sessions == map[]
    {
      this.timeout := timeout;
      sessions := map[];
    }

    /** Refreshes the live session of `key`, or stores a fresh one over an absent or stale record. */
    method GetOrCreateSession(key: string, now: int) returns (id: string)
      requires Valid()
      modifies this
      ensures Valid()
      ensures id == SessionId(key) && id in sessions
      ensures sessions == GetOrCreate(old(sessions), key, now, timeout)
    {
      id := SessionId(key);
      if id in sessions {
        var session := sessions[id];
        if now - session.lastActivity < timeout {
          sessions := sessions[id := session.(lastActivity := now, requestCount := session.requestCount + 1)];
          return;
        }
      }
      sessions := sessions[id := Session(key, now, now, 1, [])];
    }

    /** Records `sector` for the stored session `id`, live or stale; does nothing for an unknown id. */
    method TrackAnalysis(id: string, sector: string)
      requires Valid()
      modifies this
      ensures Valid()
      ensures sessions == Track(old(sessions), id, sector)
    {
      if id in sessions {
        if sector !in sessions[id].sectorsAnalyzed {
          sessions := sessions[id := sessions[id].(sectorsAnalyzed := sessions[id].sectorsAnalyzed + [sector])];
        }
      }
    }

    /** The stored record of `id`, live or stale, or None. */
    function GetSessionInfo(id: string): (info: Option<Session>)
      reads this
      ensures info.Some? <==> id in sessions
      ensures info.Some? ==> info.value == sessions[id]
      ensures info.Some? && Valid() ==>
        && SessionId(info.value.apiKey) == id
        && info.value.requestCount >= 1
        && NoDuplicates(info.value.sectorsAnalyzed)
    {
      if id in sessions then Some(sessions[id]) else None
    }

    /** Removes exactly the records that are no longer live at `now`. */
    method CleanupExpired(now: int)
      requires Valid()
      modifies this
      ensures Valid()
      ensures sessions == Cleanup(old(sessions), now, timeout)
      ensures forall id :: id in sessions <==> id in old(sessions) && IsLive(old(sessions)[id], now, timeout)
    {
      var expired := set id | id in sessions && now - sessions[id].lastActivity >= timeout;
      var todo := expired;
      while todo != {}
        invariant todo <= expired
        invariant sessions == old(sessions) - (expired - todo)
        decreases todo
      {
        var sid :| sid in todo;
        sessions := sessions - {sid};
        todo := todo - {sid};
      }
      assert sessions == Cleanup(old(sessions), now, timeout);
    }
  }
}
