/** The account records: users, their credentials, and a configured second factor. */
module Domain {
  import opened Wrappers

  /** Rust's `i32`. */
  newtype i32 = x: int | -0x8000_0000 <= x < 0x8000_0000

  datatype User = User(id: i32, email: string, name: string)

  /** `User::new`: the fields exactly as given. */
  function NewUser(id: i32, email: string, name: string): (u: User)
    ensures u.id == id && u.email == email && u.name == name
  {
    User(id, email, name)
  }

  /** A second authentication factor: which one, and its secret once there is one. */
  datatype Mfa = Mfa(mfaId: string, secret: Option<string>)

  function NewMfa(mfaId: string): (m: Mfa)
    ensures m.mfaId == mfaId && m.secret == None
  {
    Mfa(mfaId, None)
  }

  function MfaWithSecret(mfaId: string, secret: string): (m: Mfa)
    ensures m.mfaId == mfaId && m.secret == Some(secret)
  {
    Mfa(mfaId, Some(secret))
  }

  /** The stored form of a credentials record. */
  datatype CredentialsRow = CredentialsRow(id: i32, password: string, mfaConfig: Option<Mfa>, userId: i32)

  /** The row that `set_mfa(mfa)` leaves. */
  function WithMfa(row: CredentialsRow, mfa: Mfa): (r: CredentialsRow)
    ensures r.mfaConfig == Some(mfa)
    ensures r.id == row.id && r.password == row.password && r.userId == row.userId
  {
    row.(mfaConfig := Some(mfa))
  }

  /** The second `set_mfa` wins. */
  lemma WithMfaOverwrites(row: CredentialsRow, first: Mfa, second: Mfa)
    ensures WithMfa(WithMfa(row, first), second) == WithMfa(row, second)
  {
  }

  lemma WithMfaIdempotent(row: CredentialsRow, mfa: Mfa)
    ensures WithMfa(WithMfa(row, mfa), mfa) == WithMfa(row, mfa)
  {
    WithMfaOverwrites(row, mfa, mfa);
  }

  class Credentials {
    var id: i32
    var password: string
    var mfaConfig: Option<Mfa>
    var userId: i32

    /** `Credentials::new`: no second factor yet. */
    constructor (id: i32, password: string, userId: i32)
      ensures this.id == id && this.password == password && this.userId == userId
      ensures mfaConfig == None
    {
      this.id := id;
      this.password := password;
      mfaConfig := None;
      this.userId := userId;
    }

    /** A record loaded from the store. */
    constructor Load(row: CredentialsRow)
      ensures Row() == row
    {
      id := row.id;
      password := row.password;
      mfaConfig := row.mfaConfig;
      userId := row.userId;
    }

    function Row(): CredentialsRow
      reads this
    {
      CredentialsRow(id, password, mfaConfig, userId)
    }

    method SetMfa(mfa: Mfa)
      modifies this
      ensures Row() == WithMfa(old(Row()), mfa)
    {
      mfaConfig := Some(mfa);
    }
  }
}
