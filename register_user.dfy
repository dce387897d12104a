/**
 * `RegisterUserUseCase.execute`: a new account with a non-blank name and
 * email, an email nobody uses yet and a password of at least six
 * characters. The password is stored hashed, the role is always USER, and
 * the caller gets the account without its password.
 */
module RegisterUserUseCase {
  import opened Wrappers
  import opened Errors
  import opened Entities
  import opened Text
  import opened Bcrypt
  import opened InMemory
  import opened Messages

  const MinPasswordLength := 6

  /** `!password || password.length < 6` */
  predicate PasswordTooShortFor(password: Option<string>) {
    password.None? || |password.value| < MinPasswordLength
  }

  method Execute(store: Store, name: Option<string>, email: Option<string>, password: Option<string>)
    returns (r: Result<UserView>)
    requires store.Valid()
    modifies store`users, store`nextUserId
    ensures store.Valid()
    ensures MissingOrBlank(name) ==> r == Err(App(ValidationError(NameRequired)))
    ensures !MissingOrBlank(name) && MissingOrBlank(email) ==> r == Err(App(ValidationError(EmailRequired)))
    // the email is checked before the password
    ensures !MissingOrBlank(name) && !MissingOrBlank(email) && old(store.UserByEmail(email.value)).Some?
      ==> r == Err(App(ValidationError(EmailTaken)))
    ensures !MissingOrBlank(name) && !MissingOrBlank(email) && old(store.UserByEmail(email.value)).None?
      && PasswordTooShortFor(password)
      ==> r == Err(App(ValidationError(PasswordTooShort)))
    ensures r.Ok? <==>
      !MissingOrBlank(name) && !MissingOrBlank(email) && old(store.UserByEmail(email.value)).None?
      && !PasswordTooShortFor(password)
    ensures r.Err? ==> unchanged(store)
    // one user is appended: fresh id, role USER, the hash of the password and never the password
    ensures r.Ok? ==>
      var u := User(old(store.nextUserId), name.value, email.value, Hash(password.value), RoleUser);
      && store.users == old(store.users) + [u]
      && u.password != password.value && Matches(password.value, u.password)
      && r.value == ViewOf(u)
  {
    if name.None? || name.value == "" || Trim(name.value) == "" {
      return Err(App(ValidationError(NameRequired)));
    }
    if email.None? || email.value == "" || Trim(email.value) == "" {
      return Err(App(ValidationError(EmailRequired)));
    }
    var existing := store.UserByEmail(email.value);
    if existing.Some? {
      return Err(App(ValidationError(EmailTaken)));
    }
    if password.None? || password.value == "" || |password.value| < MinPasswordLength {
      return Err(App(ValidationError(PasswordTooShort)));
    }
    var hashedPassword := Hash(password.value);
    var user := store.CreateUser(name.value, email.value, hashedPassword, RoleUser);
    return Ok(ViewOf(user));
  }
}
