/**
  The in-memory user directory: users keyed by e-mail address, looked up with the
  address lower-cased and stripped of surrounding white space.
*/
module UserService {
  import opened Wrappers
  import opened Domain

  datatype NotFoundError = NotFoundError(message: string)

  const NOT_FOUND_MESSAGE := "User not found"

  /** The characters with the Unicode `White_Space` property, which `str::trim` strips. */
  predicate WhiteSpace(c: char) {
    var n := c as int;
    (0x09 <= n <= 0x0D) || n == 0x20 || n == 0x85 || n == 0xA0 || n == 0x1680 ||
    (0x2000 <= n <= 0x200A) || n == 0x2028 || n == 0x2029 || n == 0x202F || n == 0x205F || n == 0x3000
  }

  predicate AllWhiteSpace(s: string) {
    forall i :: 0 <= i < |s| ==> WhiteSpace(s[i])
  }

  function LowerChar(c: char): (l: char)
    ensures 'A' <= c <= 'Z' ==> l as int == c as int + 32
    ensures !('A' <= c <= 'Z') ==> l == c
  {
    if 'A' <= c <= 'Z' then (c as int + 32) as char else c
  }

  /** `str::to_lowercase`, for the ASCII letters. */
  function Lowercase(s: string): (l: string)
    ensures |l| == |s| && forall i :: 0 <= i < |s| ==> l[i] == LowerChar(s[i])
  {
    seq(|s|, i requires 0 <= i < |s| => LowerChar(s[i]))
  }

  function TrimStart(s: string): (t: string)
    ensures t == [] || !WhiteSpace(t[0])
  {
    if s != [] && WhiteSpace(s[0]) then TrimStart(s[1..]) else s
  }

  function TrimEnd(s: string): (t: string)
    ensures t == [] || !WhiteSpace(t[|t| - 1])
  {
    if s != [] && WhiteSpace(s[|s| - 1]) then TrimEnd(s[..|s| - 1]) else s
  }

  /** The left trim keeps a suffix of its input and removes only white space. */
  lemma {:induction false} TrimStartCuts(s: string)
    ensures |TrimStart(s)| <= |s| && TrimStart(s) == s[|s| - |TrimStart(s)|..]
    ensures AllWhiteSpace(s[..|s| - |TrimStart(s)|])
  {
    if s != [] && WhiteSpace(s[0]) {
      TrimStartCuts(s[1..]);
      var n := |s| - |TrimStart(s)|;
      assert s[1..][|s| - 1 - |TrimStart(s)|..] == s[n..];
      assert forall k :: 1 <= k < n ==> s[k] == s[1..][..n - 1][k - 1];
    }
  }

  /** The right trim keeps a prefix of its input and removes only white space. */
  lemma {:induction false} TrimEndCuts(s: string)
    ensures |TrimEnd(s)| <= |s| && TrimEnd(s) == s[..|TrimEnd(s)|]
    ensures AllWhiteSpace(s[|TrimEnd(s)|..])
  {
    if s != [] && WhiteSpace(s[|s| - 1]) {
      var shorter := s[..|s| - 1];
      TrimEndCuts(shorter);
      var n := |TrimEnd(s)|;
      assert shorter[..n] == s[..n];
      assert forall k :: n <= k < |s| - 1 ==> s[k] == shorter[n..][k - n];
    }
  }

  /** `str::trim`. */
  function Trim(s: string): string {
    TrimEnd(TrimStart(s))
  }

  /**
    Neither end of a trimmed string is white space, it is empty exactly when the input
    is all white space, and it sits inside the input with only white space cut away on
    either side.
  */
  lemma TrimShape(s: string)
    ensures Trim(s) == [] || (!WhiteSpace(Trim(s)[0]) && !WhiteSpace(Trim(s)[|Trim(s)| - 1]))
    ensures Trim(s) == [] <==> AllWhiteSpace(s)
    ensures exists i :: 0 <= i <= |s| - |Trim(s)| && s[i..i + |Trim(s)|] == Trim(s)
                        && AllWhiteSpace(s[..i]) && AllWhiteSpace(s[i + |Trim(s)|..])
  {
    var front := TrimStart(s);
    var t := TrimEnd(front);
    TrimStartCuts(s);
    TrimEndCuts(front);
    var i := |s| - |front|;
    assert s[i..i + |t|] == t && s[i + |t|..] == front[|t|..];
    if AllWhiteSpace(s) {
      TrimStartWhiteSpace(s, []);
      assert s + [] == s;
    }
    if t == [] {
      assert front[|t|..] == front;
      assert s == s[..i] + front;
      AllWhiteSpaceAppend(s[..i], front);
    }
    if t != [] {
      assert t[0] == front[0];
    }
  }

  lemma AllWhiteSpaceAppend(a: string, b: string)
    requires AllWhiteSpace(a) && AllWhiteSpace(b)
    ensures AllWhiteSpace(a + b)
  {
    assert forall k :: |a| <= k < |a + b| ==> (a + b)[k] == b[k - |a|];
  }

  /** The trim is the slice of its input that starts where the left trim starts. */
  lemma TrimSlice(s: string)
    ensures |TrimStart(s)| <= |s| && |s| - |TrimStart(s)| + |Trim(s)| <= |s|
    ensures Trim(s) == s[|s| - |TrimStart(s)|..|s| - |TrimStart(s)| + |Trim(s)|]
  {
    var front := TrimStart(s);
    TrimStartCuts(s);
    TrimEndCuts(front);
  }

  /** The key an address is looked up under: lower-cased, then trimmed. */
  function Normalise(email: string): string {
    Trim(Lowercase(email))
  }

  /**
    A normalised key has no white space at either end, and it is empty exactly when the
    address is all white space.
  */
  lemma NormaliseShape(email: string)
    ensures Normalise(email) == [] <==> AllWhiteSpace(email)
    ensures Normalise(email) == [] || (!WhiteSpace(Normalise(email)[0]) && !WhiteSpace(Normalise(email)[|Normalise(email)| - 1]))
  {
    TrimShape(Lowercase(email));
    LowercaseSameWhiteSpace(email);
  }

  /** A normalised key has no ASCII upper-case letter left. */
  lemma NormaliseIsLowercase(email: string)
    ensures Lowercase(Normalise(email)) == Normalise(email)
  {
    var lower := Lowercase(email);
    TrimSlice(lower);
    var i := |lower| - |TrimStart(lower)|;
    LowercasedSlice(email, i, i + |Trim(lower)|);
  }

  /** Lower-casing changes no white space into something else, nor the reverse. */
  lemma LowercaseSameWhiteSpace(s: string)
    ensures AllWhiteSpace(Lowercase(s)) <==> AllWhiteSpace(s)
  {
    assert forall k :: 0 <= k < |s| ==> (WhiteSpace(s[k]) <==> WhiteSpace(Lowercase(s)[k]));
  }

  /** Any piece of a lower-cased string is already lower-case. */
  lemma LowercasedSlice(s: string, i: nat, j: nat)
    requires i <= j <= |s|
    ensures Lowercase(Lowercase(s)[i..j]) == Lowercase(s)[i..j]
  {
    var piece := Lowercase(s)[i..j];
    forall k | 0 <= k < |piece| ensures LowerChar(piece[k]) == piece[k] {
      assert piece[k] == LowerChar(s[i + k]);
    }
  }

  class TestUserService {
    var users: map<string, User>

    /** `TestUserService::new`: exactly one seeded user. */
    constructor ()
      ensures users == map["test@example.org" := User(123, "test@example.org", "Hans")]
    {
      var seeded: map<string, User> := map[];
      seeded := seeded["test@example.org" := NewUser(123, "test@example.org", "Hans")];
      users := seeded;
    }

    /** `find_by_email`: the stored user under the normalised address, or not-found. */
    function FindByEmail(email: string): (r: Result<User, NotFoundError>)
      reads this
      ensures r.Ok? <==> Normalise(email) in users
      ensures r.Ok? ==> r.value == users[Normalise(email)]
      ensures r.Err? ==> r.error == NotFoundError(NOT_FOUND_MESSAGE)
    {
      var key := Normalise(email);
      if key in users then Ok(users[key]) else Err(NotFoundError(NOT_FOUND_MESSAGE))
    }
  }

  lemma LowercaseIdempotent(s: string)
    ensures Lowercase(Lowercase(s)) == Lowercase(s)
  {
  }

  lemma LowercaseAppend(a: string, b: string)
    ensures Lowercase(a + b) == Lowercase(a) + Lowercase(b)
  {
  }

  lemma LowercaseKeepsWhiteSpace(s: string)
    requires AllWhiteSpace(s)
    ensures Lowercase(s) == s
  {
  }

  lemma {:induction false} TrimStartWhiteSpace(pre: string, s: string)
    requires AllWhiteSpace(pre)
    ensures TrimStart(pre + s) == TrimStart(s)
  {
    if pre != [] {
      assert (pre + s)[0] == pre[0] && (pre + s)[1..] == pre[1..] + s;
      TrimStartWhiteSpace(pre[1..], s);
    } else {
      assert pre + s == s;
    }
  }

  lemma {:induction false} TrimEndWhiteSpace(s: string, post: string)
    requires AllWhiteSpace(post)
    ensures TrimEnd(s + post) == TrimEnd(s)
  {
    if post != [] {
      var shorter := post[..|post| - 1];
      assert (s + post)[|s + post| - 1] == post[|post| - 1];
      assert (s + post)[..|s + post| - 1] == s + shorter;
      TrimEndWhiteSpace(s, shorter);
    } else {
      assert s + post == s;
    }
  }

  lemma {:induction false} TrimStartAppend(s: string, post: string)
    requires TrimStart(s) != []
    ensures TrimStart(s + post) == TrimStart(s) + post
  {
    assert s != [];
    assert (s + post)[0] == s[0] && (s + post)[1..] == s[1..] + post;
    if WhiteSpace(s[0]) {
      TrimStartAppend(s[1..], post);
    }
  }

  lemma {:induction false} TrimStartAllWhite(s: string)
    requires TrimStart(s) == []
    ensures AllWhiteSpace(s)
  {
    if s != [] {
      TrimStartAllWhite(s[1..]);
    }
  }

  /** White space around the text does not change what it trims to. */
  lemma TrimSurrounding(pre: string, s: string, post: string)
    requires AllWhiteSpace(pre) && AllWhiteSpace(post)
    ensures Trim(pre + s + post) == Trim(s)
  {
    assert pre + s + post == pre + (s + post);
    TrimStartWhiteSpace(pre, s + post);
    if TrimStart(s) == [] {
      TrimStartAllWhite(s);
      TrimStartWhiteSpace(s, post);
      TrimStartWhiteSpace(post, []);
      assert post + [] == post;
    } else {
      TrimStartAppend(s, post);
      TrimEndWhiteSpace(TrimStart(s), post);
    }
  }

  /** Addresses that differ only in the case of ASCII letters find the same user. */
  lemma FindIgnoresCase(service: TestUserService, a: string, b: string)
    requires Lowercase(a) == Lowercase(b)
    ensures service.FindByEmail(a) == service.FindByEmail(b)
  {
  }

  /** Lookups are insensitive to letter case: an address finds what its lower-case form finds. */
  lemma FindAsLowercase(service: TestUserService, email: string)
    ensures service.FindByEmail(email) == service.FindByEmail(Lowercase(email))
  {
    LowercaseIdempotent(email);
  }

  /** White space around an address does not change the lookup. */
  lemma FindIgnoresSurroundingSpace(service: TestUserService, pre: string, email: string, post: string)
    requires AllWhiteSpace(pre) && AllWhiteSpace(post)
    ensures service.FindByEmail(pre + email + post) == service.FindByEmail(email)
  {
    LowercaseAppend(pre + email, post);
    LowercaseAppend(pre, email);
    LowercaseKeepsWhiteSpace(pre);
    LowercaseKeepsWhiteSpace(post);
    TrimSurrounding(pre, Lowercase(email), post);
  }

  lemma TrimUntouched(s: string)
    requires s != [] && !WhiteSpace(s[0]) && !WhiteSpace(s[|s| - 1])
    ensures Trim(s) == s
  {
  }

  /** A padded address in any letter case finds the user stored under its lower-case form. */
  lemma FoundUnderLowercase(service: TestUserService, pre: string, email: string, post: string)
    requires AllWhiteSpace(pre) && AllWhiteSpace(post)
    requires Lowercase(email) != [] && !WhiteSpace(Lowercase(email)[0]) && !WhiteSpace(Lowercase(email)[|email| - 1])
    requires Lowercase(email) in service.users
    ensures service.FindByEmail(pre + email + post) == Ok(service.users[Lowercase(email)])
  {
    FindIgnoresSurroundingSpace(service, pre, email, post);
    TrimUntouched(Lowercase(email));
  }

  /** The seeded user is found under its address written in another letter case and padded with space. */
  lemma SeededUserFound(service: TestUserService)
    requires service.users == map["test@example.org" := User(123, "test@example.org", "Hans")]
    ensures service.FindByEmail(" Test@Example.ORG\n") == Ok(User(123, "test@example.org", "Hans"))
  {
    SeededAddressPadded();
    FoundUnderLowercase(service, " ", "Test@Example.ORG", "\n");
  }

  /** The address of the seeded user, padded and in mixed case. */
  lemma SeededAddressPadded()
    ensures " Test@Example.ORG\n" == " " + "Test@Example.ORG" + "\n"
    ensures Lowercase("Test@Example.ORG") == "test@example.org"
  {
  }
}
