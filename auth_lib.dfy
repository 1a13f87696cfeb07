/**
  The request-side half of the authentication library: the token that carries the
  signed-in user, its extractor, which reads the user out of the session, and the
  error returned when there is none.
*/
module AuthLib {
  import opened Wrappers
  import opened JsonText
  import opened Sessions
  import SessionAuth

  const UNAUTHORIZED: nat := 401

  /** The signed-in user, handed to request handlers. */
  datatype AuthToken<U> = AuthToken(user: U) {

    static function New(user: U): (t: AuthToken<U>)
      ensures t.GetAuthenticatedUser() == user
    {
      AuthToken(user)
    }

    /** The user the token was made for; the token is determined by it. */
    function GetAuthenticatedUser(): (u: U)
      ensures AuthToken(u) == this
    {
      user
    }
  }

  /** A response as the client receives it. */
  datatype HttpResponse = HttpResponse(status: nat, contentType: string, body: string)

  const APPLICATION_JSON := "application/json"
  const NO_USER_MESSAGE := "Error: No authentciated user"

  datatype NotAuthenticatedError = NotAuthenticatedError(message: string) {

    function StatusCode(): (code: nat)
      ensures code == UNAUTHORIZED
    {
      UNAUTHORIZED
    }

    /** A 401 response whose JSON body is the message as a string literal. */
    function ErrorResponse(): (r: HttpResponse)
      ensures r.status == StatusCode() && r.contentType == APPLICATION_JSON
      ensures Unquote(r.body) == Some(message)
    {
      UnquoteQuote(message);
      HttpResponse(UNAUTHORIZED, APPLICATION_JSON, Quote(message))
    }

    /** The `Display` text, which ignores the message. */
    function Display(): (s: string)
      ensures s == DISPLAY_TEXT
    {
      DISPLAY_TEXT
    }
  }

  const DISPLAY_TEXT := "Debug unauth error"

  /** Two errors display alike whatever their messages. */
  lemma DisplayIgnoresMessage(a: NotAuthenticatedError, b: NotAuthenticatedError)
    ensures a.Display() == b.Display()
  {
  }

  /**
    `AuthToken::from_request`: a token when the session's `"user"` entry reads as a
    `U`, the not-authenticated error otherwise.
  */
  function FromRequest<U>(session: Session, codec: Codec<U>): (r: Result<AuthToken<U>, NotAuthenticatedError>)
    reads session
    ensures r.Ok? <==> Lookup(session.entries, "user", codec).Ok? && Lookup(session.entries, "user", codec).value.Some?
    ensures r.Ok? ==> Lookup(session.entries, "user", codec) == Ok(Some(r.value.GetAuthenticatedUser()))
    ensures r.Err? ==> r.error == NotAuthenticatedError(NO_USER_MESSAGE)
  {
    match session.Get("user", codec)
    case Ok(Some(user)) => Ok(AuthToken.New(user))
    case _ => Err(NotAuthenticatedError(NO_USER_MESSAGE))
  }

  /**
    Every user the session provider accepts is also handed out by the extractor; the
    converse fails, because the extractor does not look at the expiry time.
  */
  lemma FromRequestAcceptsResolved<U>(session: Session, now: SessionAuth.Time, codec: Codec<U>, timeCodec: Codec<SessionAuth.Time>)
    requires SessionAuth.Resolve(session.entries, now, codec, timeCodec).Authenticated?
    ensures FromRequest(session, codec) == Ok(AuthToken(SessionAuth.Resolve(session.entries, now, codec, timeCodec).user))
  {
  }

  /** An expired but not yet purged session still yields a token here. */
  lemma FromRequestIgnoresExpiry<U>(session: Session, now: SessionAuth.Time, codec: Codec<U>, timeCodec: Codec<SessionAuth.Time>)
    requires SessionAuth.Resolve(session.entries, now, codec, timeCodec) == SessionAuth.Unauthenticated(true)
    ensures FromRequest(session, codec).Ok?
  {
  }
}
