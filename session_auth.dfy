/**
  Session-backed identity with an optional expiry time: the `GetUserFromSession`
  provider, which reads the signed-in user back from the session, and
  `UserSession`, which writes it.
*/
module SessionAuth {
  import opened Wrappers
  import opened Sessions

  const USER_KEY := "user"
  const TTL_KEY := "ttl"

  /** A point in time (`SystemTime`), in whole seconds. */
  type Time = nat

  /** The decision `get_authenticated_user` takes, and whether it purges the session. */
  datatype Resolution<U> = Authenticated(user: U) | Unauthenticated(purged: bool)

  /** The decision for the session `entries` at time `now`. */
  function Resolve<U>(entries: map<string, Json>, now: Time, userCodec: Codec<U>, timeCodec: Codec<Time>): (r: Resolution<U>)
    // A user that is missing or does not read back fails first, whatever the expiry says.
    ensures !(Lookup(entries, USER_KEY, userCodec).Ok? && Lookup(entries, USER_KEY, userCodec).value.Some?) ==>
      r == Unauthenticated(false)
    ensures Lookup(entries, USER_KEY, userCodec).Ok? && Lookup(entries, USER_KEY, userCodec).value.Some? ==>
      var user := Lookup(entries, USER_KEY, userCodec).value.value;
      match Lookup(entries, TTL_KEY, timeCodec)
      // An unreadable expiry fails without purging.
      case Err(_) => r == Unauthenticated(false)
      // No expiry: the user is signed in at every time.
      case Ok(None) => r == Authenticated(user)
      // The user is still signed in at the expiry time itself; only later the session is purged.
      case Ok(Some(ttl)) => if now <= ttl then r == Authenticated(user) else r == Unauthenticated(true)
    ensures r.Authenticated? ==> USER_KEY in entries && userCodec.deserialise(entries[USER_KEY]) == Some(r.user)
  {
    match Lookup(entries, USER_KEY, userCodec)
    case Ok(Some(user)) =>
      (match Lookup(entries, TTL_KEY, timeCodec)
       case Err(_) => Unauthenticated(false)
       case Ok(None) => Authenticated(user)
       case Ok(Some(ttl)) => if now > ttl then Unauthenticated(true) else Authenticated(user))
    case _ => Unauthenticated(false)
  }

  /** `GetUserFromSession::get_authenticated_user`, with the clock reading passed in as `now`. */
  method GetAuthenticatedUser<U>(s: Session, now: Time, userCodec: Codec<U>, timeCodec: Codec<Time>) returns (r: Result<U, Unit>)
    modifies s
    ensures Resolve(old(s.entries), now, userCodec, timeCodec).Authenticated? ==>
      r == Ok(Resolve(old(s.entries), now, userCodec, timeCodec).user) && s.entries == old(s.entries)
    ensures Resolve(old(s.entries), now, userCodec, timeCodec) == Unauthenticated(false) ==>
      r.Err? && s.entries == old(s.entries)
    ensures Resolve(old(s.entries), now, userCodec, timeCodec) == Unauthenticated(true) ==>
      r.Err? && s.entries == map[]
  {
    var user := s.Get(USER_KEY, userCodec);
    if !(user.Ok? && user.value.Some?) {
      return Err(Unit);
    }
    var ttl := s.Get(TTL_KEY, timeCodec);
    if ttl.Err? {
      return Err(Unit);
    }
    if ttl.value.Some? && now > ttl.value.value {
      s.Purge();
      return Err(Unit);
    }
    return Ok(user.value.value);
  }

  /** The result of a session write together with the session entries it leaves. */
  datatype Written = Written(result: Result<Unit, Unit>, entries: map<string, Json>)

  /** `set_user` on the entries `entries`. */
  function SetUserEffect<U>(entries: map<string, Json>, user: U, codec: Codec<U>): (w: Written)
    ensures codec.serialise(user).None? ==> w == Written(Err(Unit), entries)
    ensures codec.serialise(user).Some? ==>
      && w.result.Ok?
      && USER_KEY in w.entries && w.entries[USER_KEY] == codec.serialise(user).value
      && TTL_KEY !in w.entries
      && forall k :: k != USER_KEY && k != TTL_KEY ==> (k in w.entries <==> k in entries)
    ensures forall k :: k in w.entries && k != USER_KEY ==> k in entries && w.entries[k] == entries[k]
  {
    match codec.serialise(user)
    case None => Written(Err(Unit), entries)
    case Some(j) => Written(Ok(Unit), entries[USER_KEY := j] - {TTL_KEY})
  }

  /** `set_user_with_ttl` on `entries`, begun at time `now`. */
  function SetUserWithTtlEffect<U>(entries: map<string, Json>, user: U, ttlInSeconds: nat, now: Time,
                                   userCodec: Codec<U>, timeCodec: Codec<Time>): (w: Written)
    ensures userCodec.serialise(user).None? ==> w == Written(Err(Unit), entries)
    // The user is written before the expiry; a failing expiry write leaves it written.
    ensures userCodec.serialise(user).Some? ==>
      && USER_KEY in w.entries && w.entries[USER_KEY] == userCodec.serialise(user).value
      && (w.result.Ok? <==> timeCodec.serialise(now + ttlInSeconds).Some?)
    ensures userCodec.serialise(user).Some? && timeCodec.serialise(now + ttlInSeconds).Some? ==>
      TTL_KEY in w.entries && w.entries[TTL_KEY] == timeCodec.serialise(now + ttlInSeconds).value
    ensures userCodec.serialise(user).Some? ==>
      forall k :: k != USER_KEY && k != TTL_KEY ==> (k in w.entries <==> k in entries)
    // A failing expiry write leaves any earlier expiry as it was.
    ensures userCodec.serialise(user).Some? && timeCodec.serialise(now + ttlInSeconds).None? ==>
      && (TTL_KEY in w.entries <==> TTL_KEY in entries)
      && (TTL_KEY in entries ==> w.entries[TTL_KEY] == entries[TTL_KEY])
    ensures forall k :: k in w.entries && k != USER_KEY && k != TTL_KEY ==> k in entries && w.entries[k] == entries[k]
  {
    match userCodec.serialise(user)
    case None => Written(Err(Unit), entries)
    case Some(j) =>
      var afterUser := entries[USER_KEY := j];
      match timeCodec.serialise(now + ttlInSeconds)
      case None => Written(Err(Unit), afterUser)
      case Some(t) => Written(Ok(Unit), afterUser[TTL_KEY := t])
  }

  /** The writer handed to request handlers; it shares the request's session. */
  class UserSession {
    const session: Session

    constructor (session: Session)
      ensures this.session == session
    {
      this.session := session;
    }

    method SetUser<U>(user: U, codec: Codec<U>) returns (r: Result<Unit, Unit>)
      modifies session
      ensures Written(r, session.entries) == SetUserEffect(old(session.entries), user, codec)
    {
      r := session.Insert(USER_KEY, user, codec);
      if r.Err? {
        return Err(Unit);
      }
      session.Remove(TTL_KEY);
      return Ok(Unit);
    }

    /** `set_user_with_ttl`, with the clock reading passed in as `now`. */
    method SetUserWithTtl<U>(user: U, ttlInSeconds: nat, now: Time, userCodec: Codec<U>, timeCodec: Codec<Time>)
      returns (r: Result<Unit, Unit>)
      modifies session
      ensures Written(r, session.entries) == SetUserWithTtlEffect(old(session.entries), user, ttlInSeconds, now, userCodec, timeCodec)
    {
      r := session.Insert(USER_KEY, user, userCodec);
      if r.Err? {
        return Err(Unit);
      }
      var ttl := now + ttlInSeconds;
      r := session.Insert(TTL_KEY, ttl, timeCodec);
      if r.Ok? {
        return Ok(Unit);
      }
      return Err(Unit);
    }
  }

  /** After a successful `set_user` the user is signed in at every time. */
  lemma SetUserThenResolve<U(!new)>(entries: map<string, Json>, user: U, now: Time, userCodec: Codec<U>, timeCodec: Codec<Time>)
    requires Lossless(userCodec)
    requires SetUserEffect(entries, user, userCodec).result.Ok?
    ensures Resolve(SetUserEffect(entries, user, userCodec).entries, now, userCodec, timeCodec) == Authenticated(user)
  {
    var w := SetUserEffect(entries, user, userCodec);
    assert Lookup(w.entries, USER_KEY, userCodec) == Ok(Some(user));
    assert Lookup(w.entries, TTL_KEY, timeCodec) == Ok(None);
  }

  /** After a successful `set_user_with_ttl(u, s)` at `t0`, the user is signed in up to `t0 + s`. */
  lemma SetUserWithTtlThenResolve<U(!new)>(entries: map<string, Json>, user: U, ttlInSeconds: nat, t0: Time, now: Time,
                                           userCodec: Codec<U>, timeCodec: Codec<Time>)
    requires Lossless(userCodec) && Lossless(timeCodec)
    requires SetUserWithTtlEffect(entries, user, ttlInSeconds, t0, userCodec, timeCodec).result.Ok?
    ensures var after := SetUserWithTtlEffect(entries, user, ttlInSeconds, t0, userCodec, timeCodec).entries;
      Resolve(after, now, userCodec, timeCodec) ==
        if now <= t0 + ttlInSeconds then Authenticated(user) else Unauthenticated(true)
  {
    var after := SetUserWithTtlEffect(entries, user, ttlInSeconds, t0, userCodec, timeCodec).entries;
    assert Lookup(after, USER_KEY, userCodec) == Ok(Some(user));
    assert Lookup(after, TTL_KEY, timeCodec) == Ok(Some(t0 + ttlInSeconds));
  }

  /** Once expired, a session resolves to nobody, even after the purge. */
  lemma PurgedStaysSignedOut<U>(now: Time, userCodec: Codec<U>, timeCodec: Codec<Time>)
    ensures Resolve(map[], now, userCodec, timeCodec) == Unauthenticated(false)
  {
  }
}
