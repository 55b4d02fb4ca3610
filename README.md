# Ban API moderation service — Dafny model

A model of the decision logic of a moderation service for a nostr relay
network: the in-process sliding-window request limiter, the denylist store
(blocked public keys, temporary bans, blacklisted words, blocked IP
addresses) and the API-key guard of the administrative endpoints.

- `common.dfy` (module `Common`): `Option`, the `HttpError` of an
  `HTTPException` and a `Result` for operations that raise one.
- `rate_limit.dfy` (module `RateLimit`): the class `RateLimitMiddleware`,
  holding the configured `rateLimit` and a `map<ClientId, seq<int>>` of
  admitted timestamps per client. `Dispatch` prunes the client's list to the
  timestamps less than 60 seconds old, refuses (429) when `rateLimit` or more
  remain, and otherwise appends `now`. Its new state and verdict are those of
  the pure function `Step`. A ghost `history` records every dispatched
  request; `Valid()` says the table is the one obtained by replaying that
  history (`Run`). Over any history whose clock never runs backwards,
  `WindowBound` proves that no client is admitted more than `rateLimit` times
  within any 60-second window. `StoredMatchesLog` is the invariant behind
  it: a stored list forgets only timestamps that have left the window.
- `denylist.dfy` (module `Denylist`): the class `Store` with one map or set
  per table, keyed by the table's unique column: `pubkeys` (hex key to npub
  and optional reason), `tempBans` (key to expiry), `words` and `ips` (address
  to optional reason). The npub decoder of the nostr library is the opaque
  total function `fromNpub`, a constant field of the store. `ToHex` applies it
  only when the input starts with `"npub"`. `Valid()` says that every
  blocked key is the hex form of the npub stored with it. From that,
  `NpubColumnUnique` shows that the unique `npub` column can never be
  violated by `AddBlockedPubkey`. Errors are `Failure` values. Each leaves
  the tables as they were, except the 404 that `TempBanPubkey` raises after
  it has committed the ban (see below).
- `api_key.dfy` (module `ApiKey`): `GetApiKey`, a pure check of the
  `x-api-key` header against the optional admin key and the set of moderator
  private keys.

Behaviour the model keeps exactly as the code has it:

- Temporary bans are stored under the raw input (crud.py:58), while
  `check_pubkey_status` looks them up under the hex form (crud.py:86). A ban
  given in npub form is therefore stored under a different key from the one
  the status query reads. `TempBanPubkey` and `CheckPubkeyStatus` state both
  keys as written, and `TempBanInNpubFormIsNotReported` derives the
  consequence: such a key is reported blocked with no temporary ban.
- `temp_ban_pubkey` commits the ban before it updates the reason
  (crud.py:58-65). When a truthy reason is given for a key that is not
  blocked, the answer is 404 but the ban stays (`TempBanPubkey`).
- `remove_blocked_pubkey` and `remove_temp_ban` match the raw input, with no
  npub conversion (crud.py:51, crud.py:70).
- `timedelta` arithmetic raises OverflowError when the expiry falls outside
  the years 1 to 9999 (crud.py:57). The generic handler answers 500 as
  below, and nothing is stored (`BanExpiry`, `TempBanPubkey`).
- A second temporary ban on the same key breaks the unique column of
  `temp_bans` (models.py:28). The commit raises, and the generic exception
  handler answers 500 "An unexpected error occurred." (main.py:106-111). The
  model returns that as a `Failure` with no change to the store.
- "Empty" reasons follow Python truthiness: `None` and `""` count as missing
  (`Truthy`).
- With `rate_limit <= 0` every request is refused. An unseen client still
  gets an empty list stored, so the bound on stored lists is stated with
  `Cap(rateLimit)`, which is `rateLimit` when it is non-negative and 0
  otherwise.

## Model

| member | source | states |
|---|---|---|
| `RateLimit.Lookup` | rate_limit.py:16-17 | an unseen client starts from an empty list, a known one from its stored list (no contract; it is used by `Step`) |
| `RateLimit.Recent` | rate_limit.py:19 | the pruned list is no longer than the original; each timestamp less than 60 seconds older than `now` occurs in it exactly as often as in the original, and no other timestamp occurs in it |
| `RateLimit.RecentTwice` | rate_limit.py:19 | pruning at one time and then at a later time equals pruning once at the later time |
| `RateLimit.Step` | rate_limit.py:16-24 | the client always has an entry afterwards, and every stored timestamp for it is less than 60 seconds old; the request is admitted exactly when the pruned list has fewer than `limit` entries; a refused request stores the pruned list, and an admitted one stores the pruned list with `now` appended; other clients' entries are untouched; with `limit <= 0` nothing is admitted |
| `RateLimit.RateLimitMiddleware.constructor` | rate_limit.py:7-10 | the limit is the configured one and the table starts empty |
| `RateLimit.RateLimitMiddleware.Dispatch` | rate_limit.py:12-26 | the new table and verdict are those of `Step` on the old table; the request is appended to the history; every stored list holds at most `Cap(rateLimit)` entries; with a non-decreasing clock, no client has more than `Cap(rateLimit)` admissions in any 60-second window |
| `RateLimit.StoredMatchesLog` | rate_limit.py:16-24 | along a non-decreasing history, a client's stored list pruned at any time no earlier than the last request equals that client's full admission log pruned at that time |
| `RateLimit.StoredWithinLimit` | rate_limit.py:10-24 | from the empty table, every stored list holds at most `Cap(rateLimit)` entries after any sequence of requests |
| `RateLimit.AdmittedNotAfter` | rate_limit.py:24 | along a non-decreasing history, every admission time is at or before any time no earlier than the last request |
| `RateLimit.WindowBound` | rate_limit.py:19-24 | along a non-decreasing history, the admissions of a client within a window `[start, start + 60)` number at most `Cap(rateLimit)` |
| `RateLimit.AllWindowsBounded` | rate_limit.py:19-24 | the window bound holds for every client and every window start at once |
| `Denylist.ToHex` | crud.py:17-21 | an input starting with `"npub"` is decoded by `fromNpub`, and any other input is taken as hex unchanged (no contract; every key lookup of the store uses it) |
| `Denylist.BanExpiry` | crud.py:57 | the expiry is `now` plus `durationHours` hours, and it exists exactly when it lies within the range of Python's `datetime` |
| `Denylist.NpubColumnUnique` | models.py:7-8 | when every blocked key is the hex form of its npub, no two blocked keys share an npub |
| `Denylist.Store.CheckPubkeyStatus` | crud.py:75-95 | `NotBlocked` exactly when the hex form is not in the blocked table, even if a temp ban exists; for a blocked key, an expiry is reported exactly when a temp-ban row exists under the hex form, and it is that row's expiry, with no comparison against the clock |
| `Denylist.Store.AddBlockedPubkey` | crud.py:16-48 | a new key is inserted under its hex form with the raw input as npub and the given reason, answered `Blocked`; an existing key answers `AlreadyBlocked` with its stored row, and its reason changes only when it was empty and a non-empty one is given; a non-empty stored reason is never overwritten; no key disappears; the key's status is blocked afterwards; the hex-keying invariant is kept |
| `Denylist.Store.RemoveBlockedPubkey` | crud.py:50-54 | exactly the row keyed by the raw input is removed, and nothing happens when there is none; a non-npub input is then not blocked |
| `Denylist.Store.TempBanPubkey` | crud.py:56-67 | an expiry outside the range of `datetime` gives 500 with no change; so does a ban already stored under the raw input; otherwise the raw input is banned until `now + durationHours * 3600`; a non-empty reason is then set on the hex key if it is blocked, and otherwise the answer is 404 while the ban stays; with no reason the blocked table is untouched |
| `Denylist.TempBanInNpubFormIsNotReported` | crud.py:56-93 | for a blocked key given in npub form whose hex form differs and has no ban, a successful temporary ban is stored under the npub text and the status query then reports the key blocked with no temporary ban |
| `Denylist.Store.RemoveTempBan` | crud.py:69-73 | exactly the ban stored under the raw input is removed, and nothing happens when there is none |
| `Denylist.Store.UpdateBanReason` | crud.py:97-105 | an unknown hex key gives 404 with no change; otherwise only that row's reason becomes `reason`, and the updated row is returned |
| `Denylist.Store.RemoveBanReason` | crud.py:107-115 | an unknown hex key gives 404 with no change; otherwise only that row's reason becomes `None`, and the updated row is returned |
| `Denylist.Store.AddBlacklistedWord` | crud.py:117-126 | a duplicate gives 400 with the set unchanged; otherwise exactly that word is added |
| `Denylist.Store.RemoveBlacklistedWord` | crud.py:128-134 | an absent word gives 404 with the set unchanged; otherwise exactly that word is removed |
| `Denylist.Store.AddBlockedIp` | crud.py:136-145 | a duplicate gives 400 with the table unchanged; otherwise exactly that address is added with its reason |
| `Denylist.Store.RemoveBlockedIp` | crud.py:147-153 | an absent address gives 404 with the table unchanged; otherwise exactly that address is removed |
| `ApiKey.GetApiKey` | dependencies.py:14-24 | accepted exactly when the admin key is set and equals the header, or the header is a moderator key; an unset admin key never matches; a refusal is 403 "Invalid API key" |
| `ApiKey.AdminKeyIgnoresModerators` | dependencies.py:15-17 | the admin key is accepted whatever the moderator table holds |
| `ApiKey.UnsetAdminKey` | dependencies.py:15-22 | with no admin key configured, exactly the moderator keys are accepted |

## Left out

- Concurrency: `dispatch` is asynchronous and takes no lock. The model serves requests one at a time, and forwarding the request (`call_next`) is the verdict `allowed`.
- Clock: `time.time()` and `datetime.utcnow()` become the integer parameter `now`, in whole seconds since 1970-01-01 00:00:00 UTC, instead of floating-point time with microseconds. The window theorem assumes a clock that never runs backwards.
- The ASGI `app` argument of the middleware's constructor and the `Response` object: the refusal is `allowed == false`.
- main.py imports a `rate_limit` function that rate_limit.py does not define. Only the middleware class is modelled.
- Database mechanics: sessions, commit and refresh, surrogate `id` columns and the `timestamp` columns are not modelled. Each table is the map or set of its unique column.
- `get_blocked_pubkeys`: a plain read of the whole table, which the model exposes as the field `pubkeys`.
- npub decoding: `convert_npub_to_hex` is the opaque total function `fromNpub`. A malformed npub that makes the library raise is not modelled.
- Response messages of `add_blocked_pubkey` ("Public key successfully blocked", "Public key already blocked") are not modelled; its status, key, npub and reason are.
- The moderator table's model class is not part of this model. It is a set of private-key strings.
- database.py (engine selection, backup, migrations) and utils.py (list files, empty export/import stubs) are I/O and not part of this model.
- Request validation (pydantic schemas) is not modelled. From schemas.py only the default ban duration of 24 hours is kept, as `Denylist.DefaultBanHours`, the default of `TempBanPubkey`'s `durationHours`.
