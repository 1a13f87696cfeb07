/**
  The decision `AuthMiddlewareInner::call` takes for each request: a path the
  matcher leaves public is passed on untouched; on a secured path the auth provider
  is asked for the user, whose token is attached before the request is passed on,
  and the request is refused when there is no user.
*/
module AuthMiddleware {
  import opened Wrappers
  import opened PathMatching
  import opened AuthLib
  import Sessions
  import SessionAuth

  /**
    What the auth provider and the path matcher see of a request: its path, the
    entries of the session attached to it, and the time at which it is handled.
  */
  datatype HttpRequest = HttpRequest(path: string, session: map<string, Sessions.Json>, now: SessionAuth.Time)

  /** A request travelling down the service chain, with the `AuthToken<U>` slot of its extensions. */
  class ServiceRequest<U> {
    const request: HttpRequest
    var token: Option<AuthToken<U>>

    constructor (request: HttpRequest)
      ensures this.request == request && token == None
    {
      this.request := request;
      token := None;
    }
  }

  /** The observable steps of one `call`. */
  datatype Step = ProviderConsulted | DownstreamCalled

  datatype Outcome = Forwarded | Unauthorized

  class AuthMiddlewareInner<U> {
    const pathMatcher: PathMatcher
    /** `GetAuthenticatedUserFromRequest::get_authenticated_user`. */
    const authProvider: HttpRequest -> Result<U, Unit>
    /** The steps taken so far, in order. */
    ghost var trace: seq<Step>

    constructor (pathMatcher: PathMatcher, authProvider: HttpRequest -> Result<U, Unit>)
      ensures this.pathMatcher == pathMatcher && this.authProvider == authProvider && trace == []
    {
      this.pathMatcher := pathMatcher;
      this.authProvider := authProvider;
      trace := [];
    }

    method Call(req: ServiceRequest<U>) returns (outcome: Outcome)
      modifies this, req
      // A public path: nobody is asked, nothing is attached, the request goes on.
      ensures !Matches(pathMatcher, req.request.path) ==>
        outcome == Forwarded && req.token == old(req.token) && trace == old(trace) + [DownstreamCalled]
      // A secured path with a user: exactly that user's token is attached, then the request goes on.
      ensures Matches(pathMatcher, req.request.path) && authProvider(req.request).Ok? ==>
        && outcome == Forwarded
        && req.token == Some(AuthToken(authProvider(req.request).value))
        && trace == old(trace) + [ProviderConsulted, DownstreamCalled]
      // A secured path without a user: refused, and the downstream service never runs.
      ensures Matches(pathMatcher, req.request.path) && authProvider(req.request).Err? ==>
        outcome == Unauthorized && req.token == old(req.token) && trace == old(trace) + [ProviderConsulted]
    {
      if Matches(pathMatcher, req.request.path) {
        trace := trace + [ProviderConsulted];
        match authProvider(req.request)
        case Ok(user) =>
          var token := AuthToken.New(user);
          req.token := Some(token);
        case Err(_) =>
          return Unauthorized;
      }
      trace := trace + [DownstreamCalled];
      return Forwarded;
    }
  }

  /**
    `GetUserFromSession` as an auth provider: the user `Resolve` signs in from the
    request's session at the time the request is handled, and an error otherwise.
  */
  function SessionProvider<U>(userCodec: Sessions.Codec<U>, timeCodec: Sessions.Codec<SessionAuth.Time>): HttpRequest -> Result<U, Unit> {
    (req: HttpRequest) =>
      match SessionAuth.Resolve(req.session, req.now, userCodec, timeCodec)
      case Authenticated(user) => Ok(user)
      case Unauthenticated(_) => Err(Unit)
  }

  /** The session provider accepts a request exactly when `Resolve` signs a user in, and hands out that user. */
  lemma SessionProviderResolves<U>(req: HttpRequest, userCodec: Sessions.Codec<U>, timeCodec: Sessions.Codec<SessionAuth.Time>)
    ensures SessionProvider(userCodec, timeCodec)(req).Ok? <==>
      SessionAuth.Resolve(req.session, req.now, userCodec, timeCodec).Authenticated?
    ensures SessionProvider(userCodec, timeCodec)(req).Ok? ==>
      SessionProvider(userCodec, timeCodec)(req).value == SessionAuth.Resolve(req.session, req.now, userCodec, timeCodec).user
  {
  }

  /**
    One request through the middleware with `GetUserFromSession` as its auth provider:
    on a secured path the request goes on exactly when the session resolves to a
    user, and then carries that user's token.
  */
  method SessionGuardedCall<U>(pathMatcher: PathMatcher, userCodec: Sessions.Codec<U>,
                               timeCodec: Sessions.Codec<SessionAuth.Time>, req: ServiceRequest<U>)
    returns (outcome: Outcome)
    modifies req
    ensures !Matches(pathMatcher, req.request.path) ==> outcome == Forwarded && req.token == old(req.token)
    ensures Matches(pathMatcher, req.request.path) ==>
      (outcome == Forwarded <==> SessionAuth.Resolve(req.request.session, req.request.now, userCodec, timeCodec).Authenticated?)
    ensures Matches(pathMatcher, req.request.path) && outcome == Forwarded ==>
      req.token == Some(AuthToken(SessionAuth.Resolve(req.request.session, req.request.now, userCodec, timeCodec).user))
    ensures Matches(pathMatcher, req.request.path) && outcome == Unauthorized ==> req.token == old(req.token)
  {
    var middleware := new AuthMiddlewareInner(pathMatcher, SessionProvider(userCodec, timeCodec));
    SessionProviderResolves(req.request, userCodec, timeCodec);
    outcome := middleware.Call(req);
  }
}
