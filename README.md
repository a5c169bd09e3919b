# Trade Opportunities API: rate limiter, session table and sector normaliser

This project models, in Dafny, the three pieces of the Trade Opportunities API
that hold logic of their own:

- **The sliding-window rate limiter** (`RateLimiting`, from app/rate_limiter.py).
  The `RateLimiter` class keeps, for each API key, the instants of its admitted
  requests. `CheckRateLimit` first prunes the instants that have left the
  window. It then rejects the request when `maxRequests` instants remain, or
  records it and admits it. `GetRemaining` prunes the same way and reports the
  free slots. The class invariant is that no key ever holds more than
  `maxRequests` instants.
- **The TTL session table** (`Sessions`, from app/session_manager.py). The
  `SessionManager` class maps a session id (`"session_"` followed by the first
  eight characters of the key) to a `Session` record. `GetOrCreateSession`
  refreshes a live record or overwrites an absent or stale one.
  `TrackAnalysis` adds a sector once. `GetSessionInfo` reads a record.
  `CleanupExpired` deletes exactly the stale records. Each method is specified
  by a pure function of the old table (`GetOrCreate`, `Track`, `Cleanup`). The
  lemmas about sequences of calls are stated on those functions. The class
  invariant is that every record sits under its own key's id, counts at least
  one request and lists no sector twice.
- **The sector-name normaliser** (`Sectors`, from `validate_sector` in
  app/main.py). A name is lower-cased, stripped of surrounding whitespace, and
  its spaces and underscores become hyphens. An exact known sector is then
  returned. Otherwise the first known sector that occurs in the name, or that
  contains it, is returned. Otherwise the normalised name itself is returned.

The wall clock (`time.time()`) is the explicit integer parameter `now` of every
operation that reads it; timestamps are integers. `Wrappers` holds the
`Option` type.

Three behaviours of the code that are easy to misread:

- The limiter is a sliding log of instants, not a bucketed fixed-window counter.
- `get_remaining` is not read-only: it writes the pruned list back for a known key.
- `sectors_analyzed` is a list kept free of duplicates, not a set. Its order is
  the insertion order.

## Model

| member | source | states |
|---|---|---|
| `RateLimiting.Prune` | app/rate_limiter.py:22-26 | the pruned list keeps exactly the instants `x` with `now - x < window` and is no longer than the input |
| `RateLimiting.PruneDistributes` | app/rate_limiter.py:23-26 | pruning distributes over concatenation, so the kept instants stay in their original order |
| `RateLimiting.PruneCounts` | app/rate_limiter.py:23-26 | each recent instant is kept as often as it occurs, and each stale one is dropped entirely |
| `RateLimiting.PruneKeepsRecent` | app/rate_limiter.py:23-26 | a list whose instants are all inside the window is left unchanged |
| `RateLimiting.PruneDropsStale` | app/rate_limiter.py:23-26 | once every instant is a full window old, nothing is kept (the window resets) |
| `RateLimiting.PruneLater` | app/rate_limiter.py:23-26 | with a clock that does not go back, pruning at `now` and then at a later instant is pruning once at the later instant |
| `RateLimiting.PruneIdempotent` | app/rate_limiter.py:45-48 | pruning twice at the same instant is pruning once |
| `RateLimiting.MaxZero` | app/rate_limiter.py:50 | `max(0, x)`: the result is never negative, is at least `x`, and is `x` or 0 |
| `RateLimiting.RateLimiter.constructor` | app/rate_limiter.py:7-10 | a new limiter has the given limit and window (default 10 per 60 seconds) and an empty table |
| `RateLimiting.RateLimiter.CheckRateLimit` | app/rate_limiter.py:12-37 | an unknown key counts as having no instants and gets an entry: it is admitted exactly when the limit is positive, and its list becomes `[now]`, or `[]` when rejected. With `c` instants left after pruning: if `c >= maxRequests`, the result is `(false, 0)` and the pruned list is stored without `now`; otherwise it is `(true, maxRequests - (c + 1))` and the list becomes the pruned list followed by `now`. `remaining` is never negative. Every stored instant except the appended one is inside the window. No other key changes, no key is removed, and no list exceeds `maxRequests` |
| `RateLimiting.RateLimiter.GetRemaining` | app/rate_limiter.py:39-50 | an unknown key gives `maxRequests` and is not created. A known key's list is pruned without appending, and the result is `max(0, maxRequests - c)`. Under the invariant that equals `maxRequests - c` and is never negative. No other key changes |
| `RateLimiting.BurstWithinWindow` | app/rate_limiter.py:12-37 | for `maxRequests + 1` requests of one key within one window, the first `maxRequests` are admitted with remaining counts `maxRequests - 1` down to 0, and the last is rejected with `(false, 0)` |
| `RateLimiting.TwoPerMinute` | app/rate_limiter.py:12-37 | with a limit of 2 per 60 seconds, requests at 0, 1 and 2 give `(true, 1)`, `(true, 0)`, `(false, 0)` |
| `RateLimiting.RemainingThenCheck` | app/rate_limiter.py:39-50 | after `GetRemaining` reports `left`, a check at the same instant is admitted exactly when `left > 0`, and then reports `left - 1`; no other key's list changes |
| `RateLimiting.ReadmitAfterQuietWindow` | app/rate_limiter.py:22-37 | when every stored instant of a key is a full window old and the limit is positive, the next request is admitted with `maxRequests - 1` left, and the key's list becomes `[now]`; no other key's list changes |
| `Sessions.KeyPrefix` | app/session_manager.py:12 | `api_key[:8]`: a prefix of the key of at most eight characters, exactly eight for a key that long, and the whole key when it is shorter |
| `Sessions.SessionId` | app/session_manager.py:12 | the id is `"session_"` followed by at most eight more characters |
| `Sessions.SessionIdIffPrefix` | app/session_manager.py:12 | two keys get the same session id if and only if their first eight characters (`key[:8]`) are equal |
| `Sessions.IsLive` | app/session_manager.py:16 | the liveness test `now - last_activity < timeout` itself |
| `Sessions.AddSector` | app/session_manager.py:33-35 | the sector is present afterwards, nothing else is added, the old list is a prefix of the new one, and a list without duplicates stays without duplicates |
| `Sessions.AddSectorIdempotent` | app/session_manager.py:33-35 | adding the same sector twice is adding it once |
| `Sessions.GetOrCreate` | app/session_manager.py:10-29 | only the entry at the key's id is written, and it is always present afterwards. A live record (`now - last_activity < timeout`) gets `last_activity = now` and `request_count + 1`, keeping its key, creation time and sectors. An absent or stale record is replaced by a fresh one: created and last active at `now`, count 1, no sectors |
| `Sessions.Track` | app/session_manager.py:31-35 | the set of ids is unchanged and other records are untouched. A stored record, live or stale, gets the sector added once, and its other fields are unchanged. An unknown id changes nothing |
| `Sessions.Cleanup` | app/session_manager.py:41-49 | the remaining ids are exactly those whose records are live at `now`, and the remaining records are unchanged |
| `Sessions.TouchWithinTimeout` | app/session_manager.py:14-19 | two requests of one key less than `timeout` apart: the second adds exactly one to the count and keeps the creation time and sectors |
| `Sessions.TouchAfterTimeout` | app/session_manager.py:21-29 | a request `timeout` or more after the previous one resets the record under the same id to a fresh one with count 1 and no sectors |
| `Sessions.StaleIsAbsent` | app/session_manager.py:14-29 | a stale record still in the table leads to the same table as an absent one |
| `Sessions.CleanupCommutesWithTouch` | app/session_manager.py:10-49 | with a positive timeout, cleaning up before or after a request at the same instant gives the same table. Cleanup removes exactly the records the liveness test at line 16 would reset |
| `Sessions.CleanupIdempotent` | app/session_manager.py:41-49 | a second cleanup at the same instant removes nothing more |
| `Sessions.TrackIdempotent` | app/session_manager.py:31-35 | tracking the same sector twice is tracking it once |
| `Sessions.SessionManager.constructor` | app/session_manager.py:6-8 | a new manager has the given timeout (default 3600 seconds) and no sessions |
| `Sessions.SessionManager.GetOrCreateSession` | app/session_manager.py:10-29 | returns the key's id, which is then stored. The new table is `GetOrCreate` of the old one. The invariant is kept |
| `Sessions.SessionManager.TrackAnalysis` | app/session_manager.py:31-35 | the new table is `Track` of the old one, so no sector is ever listed twice. The invariant is kept |
| `Sessions.SessionManager.GetSessionInfo` | app/session_manager.py:37-39 | returns the stored record exactly when the id is stored, with no liveness filter and no change of state. Under the invariant, the record belongs to a key with that id, has a count of at least 1 and has no duplicate sectors |
| `Sessions.SessionManager.CleanupExpired` | app/session_manager.py:41-49 | the remaining ids are exactly the stored ids whose records are live at `now` (the new table is `Cleanup` of the old one), and the survivors are unchanged |
| `Sectors.ValidSectors` | app/main.py:21-25 | `VALID_SECTORS`: the thirteen known sectors, in the order the partial match tries them |
| `Sectors.ValidSectorsAreNormal` | app/main.py:21-25 | every one of the thirteen known sectors of `VALID_SECTORS` is lower-case with no space, underscore or surrounding whitespace |
| `Sectors.IsSpace` | app/main.py:29 | the characters `str.strip()` removes: the 29 code points of Python's `str.isspace()` |
| `Sectors.Lower` | app/main.py:29 | `str.lower()` on ASCII: same length, no upper-case letter left, other characters unchanged, each letter A to Z moved to its lower-case form |
| `Sectors.Strip` | app/main.py:29 | the result is a middle slice of the input with only whitespace cut from either end. It neither starts nor ends with whitespace, and it is empty exactly when the input is all whitespace |
| `Sectors.Hyphenate` | app/main.py:30 | `.replace(" ", "-").replace("_", "-")`: same length, every space and underscore becomes `-`, every other character is unchanged |
| `Sectors.Normalize` | app/main.py:29-30 | the normalised name has no upper-case letter, no space, no underscore and no surrounding whitespace |
| `Sectors.NormalizeFixesNormal` | app/main.py:29-30 | a name already in that form normalises to itself |
| `Sectors.NormalizeIdempotent` | app/main.py:29-30 | normalising twice is normalising once |
| `Sectors.IsSubstring` | app/main.py:38 | Python's `in` on strings: a prefix is found, and a needle longer than the haystack is never found |
| `Sectors.SubstringAt` | app/main.py:38 | the substring test holds exactly when the needle occurs at some offset of the haystack |
| `Sectors.Matches` | app/main.py:38 | the partial-match test: the known sector occurs in the normalised name, or the name occurs in the sector |
| `Sectors.FirstMatchIndex` | app/main.py:37-39 | no entry before the returned index matches, and the entry at the index matches unless the index is the list's length |
| `Sectors.Resolve` | app/main.py:32-42 | an exact member is returned as it is. Otherwise the result is the first entry, in list order, that occurs in the name or contains it. If no entry matches, the result is the name itself |
| `Sectors.ValidateSector` | app/main.py:27-42 | the result is a known sector or the normalised input, and it never contains a space or an underscore |
| `Sectors.KnownSectorKept` | app/main.py:32-34 | a known sector name is returned unchanged |
| `Sectors.ValidateSectorIdempotent` | app/main.py:27-42 | validating a validated name gives the same name |
| `Sectors.BlankSectorIsFirst` | app/main.py:29-39 | an empty or all-whitespace input normalises to `""`, which occurs in every sector, so the result is `"pharmaceuticals"` |

## Left out

- Lower, and so Normalize, lower-cases only the ASCII letters A to Z. Python's `str.lower()` also maps non-ASCII letters, sometimes to several characters, so the lemmas about Normalize and ValidateSector speak for Python only on ASCII input.
- Strip uses Python's list of whitespace characters for `str.strip()` and no Unicode database.
- Timestamps are integers; floating-point time is not modelled. Each call reads the clock once, as the parameter `now`; the source reads it up to three times in one call (app/session_manager.py:16, 24 and 25).
- `RateLimiter.maxRequests` is a natural number. A negative `max_requests` in the Python constructor is not modelled.
- `get_session_info` returns the stored record as a value. The source returns the stored dictionary itself, so a caller can alias it and mutate it; that is not modelled.
- Concurrency: each method is atomic. The lost updates that concurrent requests on the shared dictionaries could cause are not modelled.
- The module-level instances (`rate_limiter` at app/rate_limiter.py:52-55 and `session_manager` at app/session_manager.py:51) only supply configuration: 10 requests per 60 seconds, and a 3600-second timeout. They appear only as constructor defaults.
- The HTTP handlers of app/main.py (`analyze_sector`, `root`, `health`) are routing glue and are not modelled. In them the sector is validated, then the rate is checked, then the session is touched and the sector tracked, then data is fetched and analysed, and finally the expired sessions are cleaned up.
- app/analyzer.py is an outbound HTTP call and a text template, and app/data_fetcher.py is an HTTP fetch with HTML scraping. Both are foreign I/O and are not modelled.
- app/auth.py is a single key comparison, and app/config.py and app/models.py are configuration and schema declarations. None of them is modelled.
