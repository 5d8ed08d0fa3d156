/**
 * The credential policy: the username and password rules, the confirmation check, and the check
 * of an account's current password. A failed rule check reports the message of every rule the
 * input breaks, in the order the rules are declared.
 */
module Auth {
  import opened Wrappers
  import opened Text
  import opened Store

  /** `{ success: true }` or `{ success: false, errors }`. */
  datatype ValidationResult<E> = Valid | Invalid(errors: E)

  const UsernameTooShort := "Must be at least 6 characters long"
  const UsernameTooLong := "Must be at most 16 characters long"
  const NeedsUppercase := "Must include at least one uppercase letter"
  const UsernameHasSpaces := "Username cannot contain spaces"

  const PasswordTooShort := "Must be at least 8 characters long"
  const PasswordTooLong := "Must be at most 32 characters long"
  const PasswordHasSpaces := "Password cannot contain spaces"
  const NeedsDigit := "Must include at least one number"
  const NeedsSpecial := "Password must contain at least one special character"

  const PasswordsDiffer := "Passwords do not match"
  const UnknownAccount := "User not validated"
  const WrongPassword := "Password incorrect"

  /** The username rules, in declaration order. */
  const UsernameMessages: seq<string> :=
    [UsernameTooShort, UsernameTooLong, NeedsUppercase, UsernameHasSpaces]

  /** The password rules, in declaration order. */
  const PasswordMessages: seq<string> :=
    [PasswordTooShort, PasswordTooLong, NeedsUppercase, PasswordHasSpaces, NeedsDigit, NeedsSpecial]

  /** `/[A-Z]/`: an ASCII capital letter. */
  predicate IsUpper(c: char) { 'A' <= c <= 'Z' }

  /** `\s` of JavaScript regular expressions: white space and line terminators. */
  predicate IsWhitespace(c: char)
  {
    var n := c as int;
    || 0x09 <= n <= 0x0D
    || n == 0x20 || n == 0xA0 || n == 0x1680
    || 0x2000 <= n <= 0x200A
    || n == 0x2028 || n == 0x2029 || n == 0x202F || n == 0x205F || n == 0x3000 || n == 0xFEFF
  }

  /** The characters of the class `[!@#$%^&*(),.?":{}|<>]`. */
  const SpecialCharacters: string := "!@#$%^&*(),.?\":{}|<>"

  predicate IsSpecial(c: char) { c in SpecialCharacters }

  /** What the username rules accept, stated on their own. */
  ghost predicate UsernameOk(s: string)
  {
    && 6 <= Utf16Length(s) <= 16
    && (exists i :: 0 <= i < |s| && IsUpper(s[i]))
    && (forall i :: 0 <= i < |s| ==> !IsWhitespace(s[i]))
  }

  /** What the password rules accept, stated on their own. */
  ghost predicate PasswordOk(s: string)
  {
    && 8 <= Utf16Length(s) <= 32
    && (exists i :: 0 <= i < |s| && IsUpper(s[i]))
    && (forall i :: 0 <= i < |s| ==> !IsWhitespace(s[i]))
    && (exists i :: 0 <= i < |s| && IsDigit(s[i]))
    && (exists i :: 0 <= i < |s| && IsSpecial(s[i]))
  }

  /** Which username rules `s` breaks, one flag per rule of `UsernameMessages`. */
  function UsernameFailures(s: string): (f: seq<bool>)
  {
    [Utf16Length(s) < 6, Utf16Length(s) > 16, !Exists(s, IsUpper), Exists(s, IsWhitespace)]
  }

  /** Which password rules `s` breaks, one flag per rule of `PasswordMessages`. */
  function PasswordFailures(s: string): (f: seq<bool>)
  {
    [Utf16Length(s) < 8, Utf16Length(s) > 32, !Exists(s, IsUpper), Exists(s, IsWhitespace), !Exists(s, IsDigit),
     !Exists(s, IsSpecial)]
  }

  /** `validateUsername`. */
  function ValidateUsername(username: string): (r: ValidationResult<seq<string>>)
    ensures r.Valid? <==> UsernameOk(username)
    ensures r.Invalid? ==>
      && (UsernameTooShort in r.errors <==> Utf16Length(username) < 6)
      && (UsernameTooLong in r.errors <==> Utf16Length(username) > 16)
      && (NeedsUppercase in r.errors <==> forall i :: 0 <= i < |username| ==> !IsUpper(username[i]))
      && (UsernameHasSpaces in r.errors <==> exists i :: 0 <= i < |username| && IsWhitespace(username[i]))
    ensures r.Invalid? ==> IsSubsequence(r.errors, UsernameMessages) && 1 <= |r.errors| <= 3
  {
    var f := UsernameFailures(username);
    var errors := Select(UsernameMessages, f);
    SelectIsSubsequence(UsernameMessages, f);
    SelectEmpty(UsernameMessages, f);
    SelectShorter(UsernameMessages, f, if Utf16Length(username) < 6 then 1 else 0);
    assert Distinct(UsernameMessages);
    SelectAt(UsernameMessages, f, 0);
    SelectAt(UsernameMessages, f, 1);
    SelectAt(UsernameMessages, f, 2);
    SelectAt(UsernameMessages, f, 3);
    if errors == [] then Valid else Invalid(errors)
  }

  /** `validatePassword`. */
  function ValidatePassword(password: string): (r: ValidationResult<seq<string>>)
    ensures r.Valid? <==> PasswordOk(password)
    ensures r.Invalid? ==>
      && (PasswordTooShort in r.errors <==> Utf16Length(password) < 8)
      && (PasswordTooLong in r.errors <==> Utf16Length(password) > 32)
      && (NeedsUppercase in r.errors <==> forall i :: 0 <= i < |password| ==> !IsUpper(password[i]))
      && (PasswordHasSpaces in r.errors <==> exists i :: 0 <= i < |password| && IsWhitespace(password[i]))
      && (NeedsDigit in r.errors <==> forall i :: 0 <= i < |password| ==> !IsDigit(password[i]))
      && (NeedsSpecial in r.errors <==> forall i :: 0 <= i < |password| ==> !IsSpecial(password[i]))
    ensures r.Invalid? ==> IsSubsequence(r.errors, PasswordMessages) && 1 <= |r.errors| <= 5
  {
    PasswordErrorsValid(password);
    PasswordErrorsEach(password);
    PasswordErrorsShape(password);
    var errors := Select(PasswordMessages, PasswordFailures(password));
    if errors == [] then Valid else Invalid(errors)
  }

  /** The password messages are empty exactly when every rule holds. */
  lemma {:induction false} PasswordErrorsValid(password: string)
    ensures Select(PasswordMessages, PasswordFailures(password)) == [] <==> PasswordOk(password)
  {
    var f := PasswordFailures(password);
    SelectEmpty(PasswordMessages, f);
    assert (forall i :: 0 <= i < |f| ==> !f[i]) <==> !f[0] && !f[1] && !f[2] && !f[3] && !f[4] && !f[5] by {
      if !f[0] && !f[1] && !f[2] && !f[3] && !f[4] && !f[5] {
        forall i | 0 <= i < |f| ensures !f[i] {
          assert i in {0, 1, 2, 3, 4, 5};
        }
      }
    }
  }

  /** Each password rule's message is reported exactly when that rule fails. */
  lemma {:induction false} PasswordErrorsEach(password: string)
    ensures var errors := Select(PasswordMessages, PasswordFailures(password));
      && (PasswordTooShort in errors <==> Utf16Length(password) < 8)
      && (PasswordTooLong in errors <==> Utf16Length(password) > 32)
      && (NeedsUppercase in errors <==> forall i :: 0 <= i < |password| ==> !IsUpper(password[i]))
      && (PasswordHasSpaces in errors <==> exists i :: 0 <= i < |password| && IsWhitespace(password[i]))
      && (NeedsDigit in errors <==> forall i :: 0 <= i < |password| ==> !IsDigit(password[i]))
      && (NeedsSpecial in errors <==> forall i :: 0 <= i < |password| ==> !IsSpecial(password[i]))
  {
    var f := PasswordFailures(password);
    assert Distinct(PasswordMessages);
    SelectAt(PasswordMessages, f, 0);
    SelectAt(PasswordMessages, f, 1);
    SelectAt(PasswordMessages, f, 2);
    SelectAt(PasswordMessages, f, 3);
    SelectAt(PasswordMessages, f, 4);
    SelectAt(PasswordMessages, f, 5);
  }

  /** The password messages keep the declaration order, and at most five rules fail together. */
  lemma {:induction false} PasswordErrorsShape(password: string)
    ensures var errors := Select(PasswordMessages, PasswordFailures(password));
      IsSubsequence(errors, PasswordMessages) && |errors| <= 5
  {
    var f := PasswordFailures(password);
    SelectIsSubsequence(PasswordMessages, f);
    SelectShorter(PasswordMessages, f, if Utf16Length(password) < 8 then 1 else 0);
  }

  /** `comparePasswords`: one error, and only when the two entries differ. */
  function ComparePasswords(password: string, confirmPassword: string): (r: ValidationResult<string>)
    ensures r.Valid? <==> password == confirmPassword
    ensures r.Invalid? ==> r.errors == PasswordsDiffer
  {
    if password != confirmPassword then Invalid(PasswordsDiffer) else Valid
  }

  /**
   * How a form reports the three credential checks: each error field is present exactly when its
   * check fails, and then carries that check's messages.
   */
  ghost predicate ReportsCredentialFailures(usernameErrors: Option<seq<string>>, passwordErrors: Option<seq<string>>,
                                            password2Error: Option<string>,
                                            username: string, password: string, password2: string)
  {
    && (usernameErrors.Some? <==> !UsernameOk(username))
    && (usernameErrors.Some? ==> usernameErrors == Some(ValidateUsername(username).errors))
    && (passwordErrors.Some? <==> !PasswordOk(password))
    && (passwordErrors.Some? ==> passwordErrors == Some(ValidatePassword(password).errors))
    && (password2Error.Some? <==> password != password2)
    && (password2Error.Some? ==> password2Error == Some(PasswordsDiffer))
  }

  /**
   * `validateActualPassword`: looks the account up by id and checks the password against that
   * account's digest; it only reads the account table.
   */
  function ValidateActualPassword(users: map<UserId, Account>, h: Hasher, id: UserId, password: string)
    : (r: ValidationResult<seq<string>>)
    ensures r.Valid? <==> id in users && h.compare(password, users[id].password)
    ensures id !in users ==> r == Invalid([UnknownAccount])
    ensures id in users && !h.compare(password, users[id].password) ==> r == Invalid([WrongPassword])
  {
    if id !in users then Invalid([UnknownAccount])
    else if !h.compare(password, users[id].password) then Invalid([WrongPassword])
    else Valid
  }

  /** Symbols outside the listed class, such as `-`, `_` or `+`, do not satisfy the special-character rule. */
  lemma OnlyListedSymbolsCount(password: string)
    requires forall i :: 0 <= i < |password| ==> password[i] !in SpecialCharacters
    ensures ValidatePassword(password).Invalid?
    ensures NeedsSpecial in ValidatePassword(password).errors
  {
    assert forall i :: 0 <= i < |password| ==> !IsSpecial(password[i]);
  }

  /** With a round-tripping hasher, an account's own password passes the current-password check. */
  lemma OwnPasswordValidates(users: map<UserId, Account>, h: Hasher, id: UserId,
                             password: string, salt: Salt)
    requires RoundTrips(h)
    requires id in users && users[id].password == h.hash(password, salt)
    ensures ValidateActualPassword(users, h, id, password).Valid?
  {
    assert h.compare(password, h.hash(password, salt));
  }
}
