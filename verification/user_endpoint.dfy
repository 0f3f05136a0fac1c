/**
 * The `/v1/user/:id` handler of index.js: a read-through cache of
 * `{cached_at, data}` records, kept in a keyed store, in front of the
 * Discord client. A request is served from the store while the record is
 * younger than the TTL; otherwise the user is fetched, and on success the
 * record is overwritten with the fresh data.
 */
module UserEndpoint {
  import opened Wrappers
  import Badges
  import Nitro

  /**
   * The user object the Discord client returns, reduced to what the handler
   * reads. The avatar and banner URLs, the hex accent colour and the ISO date
   * are computed by the client library and enter here as given values.
   */
  datatype DiscordUser = DiscordUser(
    id: string,
    username: string,
    globalName: Option<string>,
    discriminator: string,
    avatarUrl: string,
    bannerUrl: Option<string>,
    hexAccentColor: Option<string>,
    createdTimestamp: int,
    createdDate: string,
    flagsBitfield: Option<nat>,
    premiumType: Option<int>)

  /** The `userData` object that is stored and served. */
  datatype UserData = UserData(
    id: string,
    username: string,
    globalName: Option<string>,
    discriminator: string,
    avatar: string,
    banner: Option<string>,
    bannerColor: Option<string>,
    createdTimestamp: int,
    createdDate: string,
    publicFlags: seq<string>,
    nitro: Option<string>)

  /** A stored record `{cached_at, data}`; `cachedAt` is in milliseconds. */
  datatype Record = Record(cachedAt: int, data: UserData)

  /** The JSON body of the answer. */
  datatype Response =
    | Served(cached: bool, data: UserData)  // {success: true, cached, data}
    | Failed(error: string)                 // {success: false, error}

  const USER_NOT_FOUND := "user_not_found"

  /** `now - cached.cached_at < CACHE_TTL`: the record may be served. */
  predicate IsFresh(rec: Record, now: int, ttl: int)
  {
    now - rec.cachedAt < ttl
  }

  /** The store answers the request without a fetch. */
  predicate IsHit(store: map<string, Record>, id: string, now: int, ttl: int)
  {
    id in store && IsFresh(store[id], now, ttl)
  }

  /** The `userData` object built from a fetched user. */
  function ToUserData(u: DiscordUser): (data: UserData)
  {
    UserData(
      u.id, u.username, u.globalName, u.discriminator,
      u.avatarUrl, u.bannerUrl, u.hexAccentColor,
      u.createdTimestamp, u.createdDate,
      Badges.Decode(Badges.BitfieldOrZero(u.flagsBitfield)),
      Nitro.NitroName(u.premiumType))
  }

  /** The answer to one request and the store after it. */
  datatype Outcome = Outcome(response: Response, store: map<string, Record>)

  /**
   * One request for `id` at time `now`, where `fetched` is what
   * `fetchUserRaw(id)` gives (`None` when the client found no user or
   * failed); on a hit it is never looked at.
   */
  function Handle(store: map<string, Record>, id: string, now: int, ttl: int, fetched: Option<DiscordUser>): (o: Outcome)
  {
    if IsHit(store, id, now, ttl) then
      Outcome(Served(true, store[id].data), store)
    else
      match fetched
      case None => Outcome(Failed(USER_NOT_FOUND), store)
      case Some(u) =>
        var data := ToUserData(u);
        Outcome(Served(false, data), store[id := Record(now, data)])
  }

  /** The badge list of a user record: table names only, in ascending flag order. */
  ghost predicate WellFormedBadges(badges: seq<string>)
  {
    && (forall a :: 0 <= a < |badges| ==> Badges.IsBadgeName(badges[a]))
    && (forall a, b :: 0 <= a < b < |badges| ==>
          Badges.FlagValue(badges[a]) < Badges.FlagValue(badges[b]))
  }

  /** Every stored record carries a well-formed badge list. */
  ghost predicate WellFormedStore(store: map<string, Record>)
  {
    forall k :: k in store ==> WellFormedBadges(store[k].data.publicFlags)
  }

  /** The store of the Firebase database under `users/`, as seen by the handler. */
  class UserCache {
    var store: map<string, Record>

    constructor (initial: map<string, Record>)
      ensures store == initial
    {
      store := initial;
    }

    /**
     * `GET /v1/user/:id`. `fetchedUpstream` tells whether the handler went
     * to the Discord client.
     */
    method GetUser(id: string, now: int, ttl: int, fetched: Option<DiscordUser>)
      returns (response: Response, fetchedUpstream: bool)
      modifies this
      ensures Outcome(response, store) == Handle(old(store), id, now, ttl, fetched)
      ensures fetchedUpstream <==> !IsHit(old(store), id, now, ttl)
      ensures response.Failed? || response.cached ==> store == old(store)
      ensures response.Served? && !response.cached ==>
        store == old(store)[id := Record(now, response.data)]
      ensures WellFormedStore(old(store)) ==> WellFormedStore(store)
    {
      ghost var before := store;
      if id in store {
        var cached := store[id];
        if now - cached.cachedAt < ttl {
          return Served(true, cached.data), false;
        }
      }
      fetchedUpstream := true;
      if fetched.None? {
        response := Failed(USER_NOT_FOUND);
        return;
      }
      var u := fetched.value;
      var badges := Badges.GetBadges(Badges.BitfieldOrZero(u.flagsBitfield));
      var nitro := Nitro.NitroName(u.premiumType);
      var userData := UserData(
        u.id, u.username, u.globalName, u.discriminator,
        u.avatarUrl, u.bannerUrl, u.hexAccentColor,
        u.createdTimestamp, u.createdDate,
        badges, nitro);
      store := store[id := Record(now, userData)];
      response := Served(false, userData);
      if WellFormedStore(before) {
        HandlePreservesWellFormed(before, id, now, ttl, fetched);
      }
    }
  }

  // ---------------------------------------------------------------------
  // Properties of the handler
  // ---------------------------------------------------------------------

  /**
   * Cache hit: a record younger than the TTL is served as cached, the store
   * is left alone, and what a fetch would have returned makes no difference.
   */
  lemma CacheHit(store: map<string, Record>, id: string, now: int, ttl: int, fetched: Option<DiscordUser>)
    requires id in store && now - store[id].cachedAt < ttl
    ensures Handle(store, id, now, ttl, fetched) == Outcome(Served(true, store[id].data), store)
    ensures forall other :: Handle(store, id, now, ttl, other) == Handle(store, id, now, ttl, fetched)
  {
  }

  /** The response is marked cached exactly on a hit. */
  lemma CachedIffHit(store: map<string, Record>, id: string, now: int, ttl: int, fetched: Option<DiscordUser>)
    ensures (Handle(store, id, now, ttl, fetched).response.Served? &&
             Handle(store, id, now, ttl, fetched).response.cached) <==> IsHit(store, id, now, ttl)
  {
  }

  /** A record whose age equals the TTL is a miss: the comparison is strict. */
  lemma AgeEqualToTtlIsMiss(store: map<string, Record>, id: string, now: int, ttl: int, fetched: Option<DiscordUser>)
    requires id in store && now - store[id].cachedAt == ttl
    ensures Handle(store, id, now, ttl, fetched).response ==
      (if fetched.None? then Failed(USER_NOT_FOUND) else Served(false, ToUserData(fetched.value)))
  {
  }

  /**
   * A failed fetch answers `user_not_found` and leaves the store as it was,
   * even when a stale record for `id` is there: there is no stale fallback.
   */
  lemma FetchFailure(store: map<string, Record>, id: string, now: int, ttl: int)
    requires !IsHit(store, id, now, ttl)
    ensures Handle(store, id, now, ttl, None) == Outcome(Failed(USER_NOT_FOUND), store)
  {
  }

  /**
   * A successful fetch overwrites the record of `id` with one stamped `now`,
   * touches no other key, and answers the new data as not cached.
   */
  lemma FetchSuccess(store: map<string, Record>, id: string, now: int, ttl: int, u: DiscordUser)
    requires !IsHit(store, id, now, ttl)
    ensures Handle(store, id, now, ttl, Some(u)).response == Served(false, ToUserData(u))
    ensures Handle(store, id, now, ttl, Some(u)).store.Keys == store.Keys + {id}
    ensures Handle(store, id, now, ttl, Some(u)).store[id] == Record(now, ToUserData(u))
    ensures forall k :: k in store && k != id ==> Handle(store, id, now, ttl, Some(u)).store[k] == store[k]
  {
  }

  /**
   * A request that follows a successful fetch within the TTL is a hit that
   * serves the same data, whatever the client would answer then.
   */
  lemma RepeatWithinTtlIsHit(store: map<string, Record>, id: string, t1: int, t2: int, ttl: int,
                             u: DiscordUser, fetched: Option<DiscordUser>)
    requires !IsHit(store, id, t1, ttl)
    requires t2 - t1 < ttl
    ensures var first := Handle(store, id, t1, ttl, Some(u));
      Handle(first.store, id, t2, ttl, fetched) == Outcome(Served(true, first.response.data), first.store)
  {
  }

  /**
   * The stamp of a record never goes back while the clock does not: every
   * record is stamped at most `now` before and after a request at `now`.
   */
  lemma StampsNotAfterNow(store: map<string, Record>, id: string, now: int, ttl: int, fetched: Option<DiscordUser>)
    requires forall k :: k in store ==> store[k].cachedAt <= now
    ensures var after := Handle(store, id, now, ttl, fetched).store;
      && after.Keys >= store.Keys
      && (forall k :: k in after ==> after[k].cachedAt <= now)
      && (forall k :: k in store ==> store[k].cachedAt <= after[k].cachedAt)
  {
  }

  /**
   * The record built from a fetched user carries the decoded badges: no
   * badge at all when the user has no bitfield, otherwise table names in
   * ascending flag order.
   */
  lemma ToUserDataBadges(u: DiscordUser)
    ensures WellFormedBadges(ToUserData(u).publicFlags)
    ensures u.flagsBitfield.None? ==> ToUserData(u).publicFlags == []
    ensures ToUserData(u).nitro == Nitro.NitroName(u.premiumType)
  {
    Badges.DecodeAscending(Badges.BitfieldOrZero(u.flagsBitfield));
    if u.flagsBitfield.None? {
      Badges.ZeroHasNoBadges(u.flagsBitfield);
    }
  }

  /** A request keeps every stored and served badge list well formed. */
  lemma HandlePreservesWellFormed(store: map<string, Record>, id: string, now: int, ttl: int,
                                  fetched: Option<DiscordUser>)
    requires WellFormedStore(store)
    ensures WellFormedStore(Handle(store, id, now, ttl, fetched).store)
    ensures Handle(store, id, now, ttl, fetched).response.Served? ==>
      WellFormedBadges(Handle(store, id, now, ttl, fetched).response.data.publicFlags)
  {
    if fetched.Some? {
      ToUserDataBadges(fetched.value);
    }
  }
}
