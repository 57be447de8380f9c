/** The account rules of src/services/user.service.js over the in-memory `users`
    collection: sign-up refuses a taken email, login fails the same way for an unknown
    email and a wrong password, and a password change needs the old password. Hashing and
    token signing are the abstract primitives of `Crypto`. */
module UserService {
  import opened Base
  import opened Crypto
  import opened UserModel
  import opened Store

  /** `signUpUser({ email, password })`: refuses an email that is already taken; otherwise
      stores a new user holding the hash of the password (subject to the schema rules
      that `save()` enforces) and returns its id. `newId` is the ObjectId mongoose
      generates for the new document. */
  method SignUpUser(db: Database, email: string, password: string, hasher: Hasher, newId: Id)
    returns (r: Result<Id>)
    requires db.Valid()
    requires forall u :: u in db.users ==> u.id != newId
    modifies db
    ensures db.Valid() && db.words == old(db.words)
    ensures (exists u :: u in old(db.users) && u.email == email) ==>
      r == Failure(EmailExists) && db.users == old(db.users)
    ensures (forall u :: u in old(db.users) ==> u.email != email) ==>
      var created := User(newId, email, hasher.hash(password), []);
      && (!SchemaValid(created) ==> r == Failure(ValidationFailed("User")) && db.users == old(db.users))
      && (SchemaValid(created) ==> r == Success(newId) && db.users == old(db.users) + [created])
  {
    if EmailIndex(db.users, email).Some? {
      return Failure(EmailExists);
    }
    var hashed := hasher.hash(password);
    var created := User(newId, email, hashed, []);
    var inserted := InsertUser(db.users, created);
    match inserted
    case Failure(e) =>
      r := Failure(e);
    case Success(users) =>
      db.users := users;
      r := Success(newId);
  }

  /** `loginUser(email, password)`: a token for the user with that email when the password
      checks out against the stored hash; the one failure "Invalid login details" both
      for an unknown email and for a wrong password. The table is only read. */
  function LoginUser(users: seq<User>, email: string, password: string, hasher: Hasher, jwt: Jwt)
    : (r: Result<string>)
    ensures r.Failure? ==> r.error == InvalidLogin && r.error.Message() == "Invalid login details"
    ensures r.Success? ==>
      exists u :: u in users && u.email == email && hasher.compare(password, u.password) && r.value == jwt.sign(u.id)
    ensures (forall u :: u in users ==> u.email != email) ==> r.Failure?
    ensures UniqueEmails(users) ==>
      forall u :: u in users && u.email == email ==> (r.Success? <==> hasher.compare(password, u.password))
  {
    match EmailIndex(users, email)
    case None => Failure(InvalidLogin)
    case Some(i) =>
      if hasher.compare(password, users[i].password) then Success(jwt.sign(users[i].id))
      else Failure(InvalidLogin)
  }

  /** `changePassword(userId, oldPassword, newPassword)`: the user must exist and the old
      password must check out; only then is that user's stored hash replaced by the hash
      of the new password (subject to the schema's `required`). */
  method ChangePassword(db: Database, userId: Id, oldPassword: string, newPassword: string, hasher: Hasher)
    returns (r: Result<()>)
    requires db.Valid()
    modifies db
    ensures db.Valid() && db.words == old(db.words)
    ensures UserIndex(old(db.users), userId).None? ==>
      r == Failure(UserNotFound) && db.users == old(db.users)
    ensures UserIndex(old(db.users), userId).Some? ==>
      var i := UserIndex(old(db.users), userId).value;
      var u := old(db.users)[i];
      && (!hasher.compare(oldPassword, u.password) ==>
            r == Failure(OldPasswordIncorrect) && db.users == old(db.users))
      && (hasher.compare(oldPassword, u.password) && hasher.hash(newPassword) == "" ==>
            r == Failure(ValidationFailed("User")) && db.users == old(db.users))
      && (hasher.compare(oldPassword, u.password) && hasher.hash(newPassword) != "" ==>
            r == Success(()) && db.users == old(db.users)[i := u.(password := hasher.hash(newPassword))])
  {
    var ui := UserIndex(db.users, userId);
    if ui.None? {
      return Failure(UserNotFound);
    }
    var user := db.users[ui.value];
    if !hasher.compare(oldPassword, user.password) {
      return Failure(OldPasswordIncorrect);
    }
    var hashed := hasher.hash(newPassword);
    if hashed == "" {
      return Failure(ValidationFailed("User"));
    }
    user := user.(password := hashed);
    UsersValidUpdate(db.users, ui.value, user);
    db.users := db.users[ui.value := user];
    r := Success(());
  }

  /** A user that has just signed up can log in with the password it signed up with,
      and receives a token for its new id. */
  lemma SignUpThenLogin(users: seq<User>, newId: Id, email: string, password: string, hasher: Hasher, jwt: Jwt)
    requires HashSound(hasher)
    requires forall u :: u in users ==> u.email != email
    ensures LoginUser(users + [User(newId, email, hasher.hash(password), [])], email, password, hasher, jwt)
            == Success(jwt.sign(newId))
  {
    var after := users + [User(newId, email, hasher.hash(password), [])];
    forall j | 0 <= j < |users| ensures after[j].email != email {
      assert after[j] == users[j] && users[j] in users;
    }
    assert after[|users|].email == email;
    assert hasher.compare(password, hasher.hash(password));
  }

  /** After a successful password change the new password logs in, and a password that
      does not check out against the new hash is refused. */
  lemma ChangeThenLogin(users: seq<User>, i: nat, newPassword: string, attempt: string, hasher: Hasher, jwt: Jwt)
    requires HashSound(hasher)
    requires UniqueEmails(users) && i < |users|
    ensures var after := users[i := users[i].(password := hasher.hash(newPassword))];
      && LoginUser(after, users[i].email, newPassword, hasher, jwt) == Success(jwt.sign(users[i].id))
      && (!hasher.compare(attempt, hasher.hash(newPassword)) ==>
            LoginUser(after, users[i].email, attempt, hasher, jwt) == Failure(InvalidLogin))
  {
    var after := users[i := users[i].(password := hasher.hash(newPassword))];
    assert UniqueEmails(after) by {
      forall a, b | 0 <= a < b < |after| ensures after[a].email != after[b].email {
        assert after[a].email == users[a].email && after[b].email == users[b].email;
      }
    }
    EmailIndexOfUnique(after, i);
    assert hasher.compare(newPassword, hasher.hash(newPassword));
  }
}
