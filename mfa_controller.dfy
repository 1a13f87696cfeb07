/**
  Enrolment of an authenticator app as second factor. `get_qrcode` keeps a freshly
  generated secret in the session as pending; `set_totp_secret` checks a code made
  from it and only then saves it with the user's credentials.
*/
module MfaController {
  import opened Wrappers
  import opened Sessions
  import opened Domain
  import opened AuthLib
  import opened JsonText

  const SESSION_KEY_TOTP_SECRET := "totp_secret"
  const CANNOT_SAVE_SECRET := "Cannot save secret"
  const TOTP_WAS_WRONG := "The TOTP was wrong"

  /** What a handler answers; `SessionFailure` is an error raised by the session layer itself. */
  datatype Response = Ok200 | Svg(body: string) | BadRequest(message: string) | Unauthorized(message: string) | SessionFailure

  /** The credentials records, by user id, as the user API loads and saves them. */
  class CredentialStore {
    var records: map<i32, CredentialsRow>

    /** Each record is filed under its own user id. */
    ghost predicate Valid()
      reads this
    {
      forall k :: k in records ==> records[k].userId == k
    }

    constructor (records: map<i32, CredentialsRow>)
      requires forall k :: k in records ==> records[k].userId == k
      ensures this.records == records && Valid()
    {
      this.records := records;
    }

    /** `find_credentials_by_user_id`: a fresh copy of the stored record. */
    method FindByUserId(userId: i32) returns (r: Result<Credentials, Unit>)
      ensures userId in records <==> r.Ok?
      ensures r.Ok? ==> fresh(r.value) && r.value.Row() == records[userId]
    {
      if userId !in records {
        return Err(Unit);
      }
      var creds := new Credentials.Load(records[userId]);
      return Ok(creds);
    }

    /** `save_credentials`; `accepted` is whether the database takes the write. */
    method Save(creds: Credentials, accepted: bool) returns (r: Result<Unit, Unit>)
      requires Valid()
      modifies this
      ensures Valid()
      ensures accepted ==> r.Ok? && records == old(records)[creds.userId := creds.Row()]
      ensures !accepted ==> r.Err? && records == old(records)
    {
      if !accepted {
        return Err(Unit);
      }
      records := records[creds.userId := creds.Row()];
      return Ok(Unit);
    }
  }

  /** The session left by `get_qrcode`: the new secret pending, earlier ones overwritten. */
  function StorePendingSecret(entries: map<string, Json>, secret: string): (after: map<string, Json>)
    ensures Lookup(after, SESSION_KEY_TOTP_SECRET, StringCodec()) == Ok(Some(secret))
    ensures forall k :: k != SESSION_KEY_TOTP_SECRET ==> (k in after <==> k in entries)
    ensures forall k :: k in after && k != SESSION_KEY_TOTP_SECRET ==> after[k] == entries[k]
  {
    LookupQuoted(entries, SESSION_KEY_TOTP_SECRET, secret);
    entries[SESSION_KEY_TOTP_SECRET := Quote(secret)]
  }

  /**
    `get_qrcode`: `secret` and `qrcode` are what the TOTP secret generator made for
    this user; the code image is answered as an SVG body.
  */
  method GetQrcode(token: AuthToken<User>, session: Session, secret: string, qrcode: string) returns (r: Response)
    modifies session
    ensures r == Svg(qrcode) && session.entries == StorePendingSecret(old(session.entries), secret)
  {
    var inserted := session.Insert(SESSION_KEY_TOTP_SECRET, secret, StringCodec());
    if inserted.Err? {
      return SessionFailure;
    }
    return Svg(qrcode);
  }

  /** The answer of `set_totp_secret` together with the session and the store it leaves. */
  datatype Enrolment = Enrolment(response: Response, session: map<string, Json>, records: map<i32, CredentialsRow>)

  /**
    `set_totp_secret` for the user `userId` sending `code`. `verify` stands for the
    TOTP check (secret, code, allowed clock skew), `factorId` for the id of the
    authenticator factor, and `saveAccepted` for whether the database takes the write.
  */
  function Enrol(session: map<string, Json>, records: map<i32, CredentialsRow>, userId: i32, code: string,
                 verify: (string, string, nat) -> bool, factorId: string, saveAccepted: bool): (e: Enrolment)
    // Without credentials nothing else is looked at.
    ensures userId !in records ==> e == Enrolment(BadRequest(CANNOT_SAVE_SECRET), session, records)
    ensures userId in records ==>
      match Lookup(session, SESSION_KEY_TOTP_SECRET, StringCodec())
      case Err(_) => e == Enrolment(SessionFailure, session, records)
      // No pending secret: the key is cleaned up and nothing is saved.
      case Ok(None) => e == Enrolment(BadRequest(CANNOT_SAVE_SECRET), session - {SESSION_KEY_TOTP_SECRET}, records)
      case Ok(Some(secret)) =>
        if !verify(secret, code, 0) then
          // A wrong code keeps the pending secret, so the user may try again.
          e == Enrolment(Unauthorized(TOTP_WAS_WRONG), session, records)
        else if !saveAccepted then
          e == Enrolment(BadRequest(CANNOT_SAVE_SECRET), session, records)
        else
          e == Enrolment(Ok200, session - {SESSION_KEY_TOTP_SECRET},
                         records[userId := WithMfa(records[userId], MfaWithSecret(factorId, secret))])
    // A secret reaches the store only on success, and only after its code was verified.
    ensures e.records != records ==> e.response == Ok200
    ensures e.response == Ok200 ==>
      && userId in records
      && Lookup(session, SESSION_KEY_TOTP_SECRET, StringCodec()).Ok?
      && Lookup(session, SESSION_KEY_TOTP_SECRET, StringCodec()).value.Some?
      && verify(Lookup(session, SESSION_KEY_TOTP_SECRET, StringCodec()).value.value, code, 0)
  {
    if userId !in records then Enrolment(BadRequest(CANNOT_SAVE_SECRET), session, records)
    else match Lookup(session, SESSION_KEY_TOTP_SECRET, StringCodec())
      case Err(_) => Enrolment(SessionFailure, session, records)
      case Ok(None) => Enrolment(BadRequest(CANNOT_SAVE_SECRET), session - {SESSION_KEY_TOTP_SECRET}, records)
      case Ok(Some(secret)) =>
        if !verify(secret, code, 0) then Enrolment(Unauthorized(TOTP_WAS_WRONG), session, records)
        else if !saveAccepted then Enrolment(BadRequest(CANNOT_SAVE_SECRET), session, records)
        else
          var saved := WithMfa(records[userId], MfaWithSecret(factorId, secret));
          Enrolment(Ok200, session - {SESSION_KEY_TOTP_SECRET}, records[userId := saved])
  }

  /** `set_totp_secret`. */
  method SetTotpSecret(code: string, token: AuthToken<User>, session: Session, store: CredentialStore,
                       verify: (string, string, nat) -> bool, factorId: string, saveAccepted: bool) returns (r: Response)
    requires store.Valid()
    modifies session, store
    ensures store.Valid()
    ensures Enrolment(r, session.entries, store.records) ==
      Enrol(old(session.entries), old(store.records), token.GetAuthenticatedUser().id, code, verify, factorId, saveAccepted)
  {
    var userId := token.GetAuthenticatedUser().id;
    var found := store.FindByUserId(userId);
    if found.Err? {
      return BadRequest(CANNOT_SAVE_SECRET);
    }
    var creds := found.value;
    var secret := session.Get(SESSION_KEY_TOTP_SECRET, StringCodec());
    if secret.Err? {
      return SessionFailure;
    }
    if secret.value.Some? {
      if !verify(secret.value.value, code, 0) {
        return Unauthorized(TOTP_WAS_WRONG);
      }
      var mfaConfig := MfaWithSecret(factorId, secret.value.value);
      creds.SetMfa(mfaConfig);
      var saved := store.Save(creds, saveAccepted);
      if saved.Err? {
        return BadRequest(CANNOT_SAVE_SECRET);
      }
      session.Remove(SESSION_KEY_TOTP_SECRET);
      return Ok200;
    } else {
      session.Remove(SESSION_KEY_TOTP_SECRET);
      return BadRequest(CANNOT_SAVE_SECRET);
    }
  }

  /**
    The enrolment flow: once a QR code has been fetched, a code that verifies against
    the secret in it is accepted, and exactly that secret is saved for the user.
  */
  lemma QrcodeThenEnrol(session: map<string, Json>, records: map<i32, CredentialsRow>, userId: i32, secret: string,
                        code: string, verify: (string, string, nat) -> bool, factorId: string)
    requires userId in records && verify(secret, code, 0)
    ensures var e := Enrol(StorePendingSecret(session, secret), records, userId, code, verify, factorId, true);
      && e.response == Ok200
      && SESSION_KEY_TOTP_SECRET !in e.session
      && userId in e.records
      && e.records[userId].mfaConfig == Some(Mfa(factorId, Some(secret)))
  {
  }

  /** After a wrong code the same pending secret still enrols with a right one. */
  lemma RetryAfterWrongCode(session: map<string, Json>, records: map<i32, CredentialsRow>, userId: i32,
                            wrong: string, right: string, verify: (string, string, nat) -> bool, factorId: string, saveAccepted: bool)
    requires Enrol(session, records, userId, wrong, verify, factorId, saveAccepted).response.Unauthorized?
    ensures var first := Enrol(session, records, userId, wrong, verify, factorId, saveAccepted);
      Enrol(first.session, first.records, userId, right, verify, factorId, saveAccepted) ==
      Enrol(session, records, userId, right, verify, factorId, saveAccepted)
  {
  }
}
