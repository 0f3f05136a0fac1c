# Discord user API: badge decoding, Nitro lookup and the cached user endpoint

This project is a Dafny model of the logic in `index.js` of a small Express
service. The service answers `GET /v1/user/:id` with a Discord user's public
profile. It keeps `{cached_at, data}` records in a Firebase database under
`users/<id>`. It serves a record while it is younger than `CACHE_TTL`
milliseconds. Otherwise it fetches the user through a Discord bot client,
builds the profile, overwrites the record and answers with the fresh data.
Two pure helpers build part of the profile:

- `getBadges` decodes the `public_flags` bitfield into badge names.
- `getNitro` maps `premiumType` to the name of a Nitro subscription.

Files:

- `wrappers.dfy`: `Option`, which stands for JavaScript's `null`/`undefined`.
- `badges.dfy`: module `Badges`. It holds the flag table and `Decode`, the function that says what `getBadges` returns. It also holds `GetBadges`, the loop that builds the array with `push`, and the lemmas on membership, order and unknown bits.
- `nitro.dfy`: module `Nitro`. It holds the object literal behind `getNitro` and the lookup over it.
- `user_endpoint.dfy`: module `UserEndpoint`. It holds the profile and record datatypes and `Handle`, the function that states the result of one request. The class `UserCache` holds the store as a `map` and has the method `GetUser`, which updates the store in place. The module also holds the lemmas about hits, misses and fetch outcomes.

Bits are modelled on unbounded naturals. `HasBit(flags, n)` stands for `flags & (1 << n)` being non-zero, and `SetBit(flags, n)` stands for `flags | (1 << n)`. The table's keys in `index.js` are written `1 << n:`, which JavaScript does not accept as a property key. The model reads each key as the number `1 << n`, which is what the code evidently intends. Integer keys of a JavaScript object are enumerated in ascending numeric order, so the table is walked in ascending flag order.

The Discord lookup `fetchUserRaw(id)` becomes a parameter `fetched: Option<DiscordUser>`. `None` stands for "no user", whether the client found nothing or threw (the `.catch(() => null)`). `GetUser` also returns `fetchedUpstream`, which says whether the handler had to consult the client. The clock `Date.now()` and `CACHE_TTL` are parameters `now` and `ttl`.

The handler has no in-memory tier and no force-refresh flag. A failed fetch never falls back to a stale record. A successful fetch always writes, with no check for an unchanged profile. "Not found" is answered as a JSON body with the default status.

## Model

| member | source | states |
|---|---|---|
| `Badges.GetBadges` | index.js:59-80 | The loop over the table returns exactly `Decode(flags)`: the names of the set flags, in table order. The name of each row is in the result if and only if that row's flag is set in `flags`. |
| `Badges.TableWellFormed` | index.js:60-72 | The table's flags are strictly ascending and its eleven names are pairwise distinct. |
| `Badges.ZeroHasNoBadges` | index.js:129 | A zero bitfield, or a missing one (which `u.flags?.bitfield \|\| 0` turns into 0), gives the empty badge list. |
| `Badges.DecodeMembership` | index.js:60-77 | A name is in the output if and only if it belongs to a table row whose flag is set. So every output name is one of the eleven table names. |
| `Badges.DecodeAscending` | index.js:60-77 | Output names are table names in strictly ascending order of their flag value `1 << shift`, so no name appears twice. |
| `Badges.DecodeOnlyReadsTableBits` | index.js:75-76 | Two bitfields that agree on every table bit decode to the same list. |
| `Badges.UnknownFlagIgnored` | index.js:75-76 | Setting a bit that no table row names (for example `1 << 4`, `1 << 5` or `1 << 10`) leaves the output unchanged. |
| `Badges.HasBitOfSetBit` | index.js:76 | After `flags \| (1 << n)`, bit `m` is set if and only if `m == n` or bit `m` was already set. |
| `Badges.DecodeExample` | index.js:59-80 | `getBadges(64 \| 1)` is `["discord_staff", "house_bravery"]`. |
| `Nitro.NitroName` | index.js:83-90 | Types 1, 2 and 3 map to `nitro_classic`, `nitro_boost` and `nitro_basic`, each in both directions. Every other input, including 0 and a missing type, gives `null`. |
| `UserEndpoint.UserCache.GetUser` | index.js:100-157 | The answer and the new store are those of `Handle`. The client is consulted exactly on a miss. On a hit or a failed fetch the store is unchanged. On a successful fetch the store is the old one with `id` set to `{cached_at: now, data}`. Well-formed badge lists in the store stay well formed. |
| `UserEndpoint.CacheHit` | index.js:110-119 | A stored record with `now - cached_at < CACHE_TTL` is served with `cached: true` and the stored data. The store is unchanged, and the fetch outcome has no effect on the answer or the store. |
| `UserEndpoint.CachedIffHit` | index.js:110-156 | An answer is marked `cached: true` if and only if the store held a fresh record for `id`. |
| `UserEndpoint.AgeEqualToTtlIsMiss` | index.js:113 | A record whose age equals the TTL is not served, because the comparison is strict. The answer is then whatever the fetch gives. |
| `UserEndpoint.FetchFailure` | index.js:123-127 | On a miss, a failed fetch answers `{success: false, error: "user_not_found"}` and leaves the store as it was, even when a stale record exists. |
| `UserEndpoint.FetchSuccess` | index.js:129-156 | On a miss, a successful fetch answers `cached: false` with the built user data. It stores `{cached_at: now, data}` under `id`, adds no key but `id`, and leaves every other record unchanged. |
| `UserEndpoint.RepeatWithinTtlIsHit` | index.js:110-150 | A second request made less than the TTL after a successful fetch is a hit and serves the same data, whatever the client would answer then. |
| `UserEndpoint.StampsNotAfterNow` | index.js:147-150 | If no record is stamped after `now`, then after a request at `now` no record is stamped after `now`, no key disappears, and no record's stamp decreases. |
| `UserEndpoint.ToUserDataBadges` | index.js:129-144 | The built user data has a well-formed badge list (table names, ascending flag order). A user without a bitfield gets no badges. `nitro` is `getNitro(premiumType)`. |
| `UserEndpoint.HandlePreservesWellFormed` | index.js:100-157 | If every stored badge list is well formed before a request, that holds after it, and the data served also has a well-formed badge list. |

## Left out

- Loading the environment and the `process.exit` checks (index.js:11-25) are not modelled. `CACHE_TTL` is the parameter `ttl`; in the source it comes from `parseInt` with a default of 300000 ms, and that parsing, including a non-numeric value, is not modelled.
- Firebase initialisation, the Discord client's construction and login, and Express routing and listening (index.js:30-56, 162-163) are I/O set-up and are not modelled.
- The Discord library computes `displayAvatarURL`, `bannerURL`, `hexAccentColor`, `createdTimestamp` and the ISO date from `new Date(...).toISOString()`. The model takes these as fields of `DiscordUser` and passes them through unchanged.
- Requests run one at a time. The model does not cover the asynchronous `get`, `set` and fetch, requests racing on the same key, or a rejected `get`/`set` promise.
- JavaScript's 32-bit signed `&` and the string-to-number coercion of the table keys are not modelled. Flags are unbounded naturals, and every table bit is below `1 << 19`.
- A stored record that lacks `cached_at` is not modelled. JavaScript would compare `NaN` and treat the record as a miss. In the model every record has a stamp, as every record this handler writes does.
- `premiumType` is modelled as an optional integer. A string key that JavaScript would coerce (such as `"1"`) is not modelled.
- UserEndpoint.UserCache: the store is an exact map, so a record is read back exactly as `set` wrote it. The Firebase Realtime Database drops null-valued fields and empty arrays, so a record served on a hit can lack `global_name`, `banner`, `banner_color`, `nitro` or an empty `public_flags`; the model does not capture that loss, and `RepeatWithinTtlIsHit` holds for the exact store only. Every id is also taken to be a valid database path: `ref` throws on an id holding `.`, `#`, `$`, `[` or `]`, and the handler then never answers, which the model does not capture.
