/**
 The request and response schemas of authentication (`src/schemas/user_schema.py`):
 the registration and login bodies with the field constraints and validators
 Pydantic applies to them, and the token response with its defaults. `EmailStr`
 is the `validEmail` predicate the validators are given.
 */
module UserSchema {
  import opened Wrappers
  import opened Text

  /** `Field(min_length=3, max_length=50)` on a username. */
  predicate NameLengthOk(name: string) {
    3 <= |name| <= 50
  }

  /** `Field(min_length=8)` on a password. */
  predicate PasswordLengthOk(password: string) {
    |password| >= 8
  }

  // ---------------------------------------------------------------------
  // Registration

  /** A registration body: `UserBase` contributes the username. */
  datatype UserCreate = UserCreate(username: string, email: string, password: string, passwordConfirm: string)

  /** Whether Pydantic accepts a registration body. */
  predicate CreateValid(u: UserCreate, validEmail: string -> bool) {
    NameLengthOk(u.username) && validEmail(u.email) && PasswordLengthOk(u.password)
  }

  /**
   The registration username is limited in length only, and the confirmation
   field is never compared with the password: whatever it holds, the verdict is
   the same.
   */
  lemma {:induction false} CreateRules(u: UserCreate, confirm: string, validEmail: string -> bool)
    ensures CreateValid(u, validEmail) <==>
              3 <= |u.username| <= 50 && validEmail(u.email) && |u.password| >= 8
    ensures CreateValid(u.(passwordConfirm := confirm), validEmail) == CreateValid(u, validEmail)
  {
  }

  // ---------------------------------------------------------------------
  // Login

  /** The characters of `[a-zA-Z0-9_-]`. */
  predicate LoginNameChar(c: char) {
    'a' <= c <= 'z' || 'A' <= c <= 'Z' || '0' <= c <= '9' || c == '_' || c == '-'
  }

  predicate AllLoginNameChars(v: string) {
    forall i :: 0 <= i < |v| ==> LoginNameChar(v[i])
  }

  /**
   `re.match(r"^[a-zA-Z0-9_-]+$", v)`: the greedy run of name characters must
   reach either the end of the string or a line feed that is its last
   character, since Python's `$` also matches before a final line feed.
   */
  predicate LoginNameMatches(v: string) {
    var n := LeadingDropped(v, LoginNameChar);
    n >= 1 && (n == |v| || (n == |v| - 1 && v[n] == '\n'))
  }

  /** The check the validator's message describes: one or more name characters and nothing else. */
  predicate LoginNameFullMatch(v: string) {
    |v| >= 1 && AllLoginNameChars(v)
  }

  /** What the pattern accepts: a name, or a name followed by one line feed. */
  lemma {:induction false} LoginNameMatchesIff(v: string)
    ensures LoginNameMatches(v) <==>
              LoginNameFullMatch(v) ||
              (|v| >= 2 && v[|v| - 1] == '\n' && LoginNameFullMatch(v[..|v| - 1]))
  {
    if |v| >= 1 {
      var w := v[..|v| - 1];
      assert forall i :: 0 <= i < |w| ==> w[i] == v[i];
    }
  }

  /** A login body; `None` is a field left out. */
  datatype UserLogin = UserLogin(username: Option<string>, email: Option<string>, password: string)

  /** Python truthiness of an optional string: present and non-empty. */
  predicate Truthy(v: Option<string>) {
    v.Some? && v.value != ""
  }

  /**
   Whether Pydantic accepts a login body, as written: the field constraints,
   the username pattern, and `check_username_or_email`.
   */
  predicate LoginValid(l: UserLogin, validEmail: string -> bool) {
    (l.username.None? || (NameLengthOk(l.username.value) && LoginNameMatches(l.username.value))) &&
    (l.email.None? || validEmail(l.email.value)) &&
    PasswordLengthOk(l.password) &&
    (Truthy(l.username) || Truthy(l.email))
  }

  /** The same, with the username pattern matched against the whole string. */
  predicate LoginValidFixed(l: UserLogin, validEmail: string -> bool) {
    (l.username.None? || (NameLengthOk(l.username.value) && LoginNameFullMatch(l.username.value))) &&
    (l.email.None? || validEmail(l.email.value)) &&
    PasswordLengthOk(l.password) &&
    (Truthy(l.username) || Truthy(l.email))
  }

  /**
   As written, an accepted login username has 3 to 50 characters, all name
   characters except possibly a final line feed; a body with neither a
   username nor an email is refused.
   */
  lemma {:induction false} LoginUsernameShape(l: UserLogin, validEmail: string -> bool)
    requires LoginValid(l, validEmail)
    ensures l.username.Some? ==>
              var u := l.username.value;
              3 <= |u| <= 50 &&
              forall i :: 0 <= i < |u| - 1 ==> LoginNameChar(u[i])
    ensures l.username.Some? && l.username.value[|l.username.value| - 1] != '\n' ==> AllLoginNameChars(l.username.value)
    ensures |l.password| >= 8
    ensures l.username.Some? || l.email.Some?
  {
    if l.username.Some? {
      var u := l.username.value;
      LoginNameMatchesIff(u);
      if !LoginNameFullMatch(u) {
        assert forall i :: 0 <= i < |u| - 1 ==> u[..|u| - 1][i] == u[i];
      }
    }
  }

  /** The login username `abc` plus a line feed passes the pattern it should fail. */
  lemma {:induction false} TrailingLineFeedPasses()
    ensures LoginNameMatches("abc\n")
    ensures !LoginNameFullMatch("abc\n")
  {
    var v := "abc\n";
    assert LoginNameChar(v[0]) && LoginNameChar(v[1]) && LoginNameChar(v[2]) && !LoginNameChar(v[3]);
    assert LeadingDropped(v[3..], LoginNameChar) == 0;
    assert v[1..][1..][1..] == v[3..];
    assert LeadingDropped(v, LoginNameChar) == 3;
  }

  /** With the whole-string match, every character of an accepted login username is a name character. */
  lemma {:induction false} LoginValidFixedCharset(l: UserLogin, validEmail: string -> bool)
    requires LoginValidFixed(l, validEmail)
    ensures l.username.Some? ==> NameLengthOk(l.username.value) && AllLoginNameChars(l.username.value)
    ensures Truthy(l.username) || Truthy(l.email)
  {
  }

  /** The fixed validator refuses exactly the bodies the written one accepts only through a final line feed. */
  lemma {:induction false} FixedOnlyDropsLineFeeds(l: UserLogin, validEmail: string -> bool)
    ensures LoginValidFixed(l, validEmail) ==> LoginValid(l, validEmail)
    ensures LoginValid(l, validEmail) && !LoginValidFixed(l, validEmail) ==>
              l.username.Some? && l.username.value[|l.username.value| - 1] == '\n'
  {
    if l.username.Some? {
      LoginNameMatchesIff(l.username.value);
    }
  }

  /** A present username already has three characters, so it alone satisfies the username-or-email check. */
  lemma {:induction false} PresentUsernameIsTruthy(l: UserLogin, validEmail: string -> bool)
    requires l.username.Some? && NameLengthOk(l.username.value) && LoginNameMatches(l.username.value)
    requires l.email.None? && PasswordLengthOk(l.password)
    ensures LoginValid(l, validEmail)
  {
  }

  /** A name with a space passes registration and is refused by the login pattern. */
  lemma {:induction false} SpacedNameRegistersButCannotLogIn(email: string, password: string, validEmail: string -> bool)
    requires validEmail(email) && |password| >= 8
    ensures CreateValid(UserCreate("a b", email, password, ""), validEmail)
    ensures !LoginValid(UserLogin(Some("a b"), None, password), validEmail)
  {
    var v := "a b";
    assert LoginNameChar(v[0]) && !LoginNameChar(v[1]);
    assert LeadingDropped(v[1..], LoginNameChar) == 0;
    assert LeadingDropped(v, LoginNameChar) == 1;
  }

  // ---------------------------------------------------------------------
  // Token response

  /** The token response; `T` is whatever stands for an encoded token. */
  datatype Token<T> = Token(accessToken: T, tokenType: string, refreshToken: Option<T>)

  /** A token response built from the access token alone takes the declared defaults. */
  function TokenWithDefaults<T>(access: T): (t: Token<T>)
    ensures t.accessToken == access
    ensures t.tokenType == "bearer" && t.refreshToken.None?
  {
    Token(access, "bearer", None)
  }
}
