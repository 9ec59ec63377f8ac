/** The authentication controller: the email probe, signup and login, deciding over the
    users table. Password hashing and comparison are bcrypt's and appear as functions
    passed in; the token the responses carry is left out. */
module Auth {
  import opened Wrappers
  import opened Seqs
  import opened Store

  /** What signup and login answer with, less the token. */
  datatype Session = Session(userId: int, userName: string, userEmail: string)

  /** A reply together with the database it leaves. */
  datatype Outcome<+T> = Outcome(reply: Reply<T>, db: Db)

  /** A body field as the handler reads it: absent, or a string. */
  type Field = Option<string>

  /** `!req.body.x`: absent or the empty string. */
  predicate Falsy(f: Field) {
    f.None? || f.value == ""
  }

  /** email: does any user have this address? A falsy address that passed validation
      gets no response: the handler returns without answering. */
  function EmailExists(db: Db, email: Field, valid: bool): (r: Reply<bool>)
    ensures !valid ==> r == Refused(Unprocessable422)
    ensures valid && Falsy(email) ==> r == Refused(NoResponse)
    ensures r.Sent? <==> valid && !Falsy(email)
    ensures r.Sent? ==> email.Some? && (r.value <==> EmailTakenBy(db.users, email.value))
  {
    if !valid then Refused(Unprocessable422)
    else if Falsy(email) then Refused(NoResponse)
    else Sent(FindUserByEmail(db.users, email.value).Some?)
  }

  /** Some user holds this email. */
  predicate EmailTakenBy(users: seq<User>, email: string) {
    exists u :: u in users && u.email == email
  }

  /** signup: 422 when validation failed, no response when a required field is falsy,
      422 when the email is taken; otherwise the user is inserted under the next id with
      the hash of the password. The stored and returned name is the one the route's
      sanitizer produced, `escape(name)`. */
  function Signup(db: Db, name: Field, email: Field, password: Field, valid: bool,
                  hash: string -> string, escape: string -> string): (r: Outcome<Session>)
    ensures r.reply.Refused? ==> r.db == db
    ensures r.reply.Sent? ==> valid && !Falsy(name) && !Falsy(email) && !Falsy(password)
    ensures r.reply.Sent? ==> !EmailTakenBy(db.users, email.value) && EmailTakenBy(r.db.users, email.value)
  {
    if !valid then Outcome(Refused(Unprocessable422), db)
    else if Falsy(name) || Falsy(email) || Falsy(password) then Outcome(Refused(NoResponse), db)
    else if FindUserByEmail(db.users, email.value).Some? then Outcome(Refused(Unprocessable422), db)
    else
      var user := User(db.nextUserId, escape(name.value), email.value, hash(password.value));
      assert user in db.users + [user];
      Outcome(Sent(Session(user.id, user.name, user.email)),
              db.(users := db.users + [user], nextUserId := db.nextUserId + 1))
  }

  /** login: the first user with that email, if the password matches its hash. */
  function Login(db: Db, email: Field, password: Field, valid: bool, matches: (string, string) -> bool): (r: Reply<Session>)
    ensures !valid ==> r == Refused(Unprocessable422)
    ensures valid && (Falsy(email) || Falsy(password)) ==> r == Refused(NoResponse)
    ensures r.Sent? ==>
              && email.Some? && password.Some?
              && exists u :: u in db.users && u.email == email.value && matches(password.value, u.password)
                             && r.value == Session(u.id, u.name, u.email)
  {
    if !valid then Refused(Unprocessable422)
    else if Falsy(email) || Falsy(password) then Refused(NoResponse)
    else
      match FindUserByEmail(db.users, email.value)
      case None => Refused(Unauthorized401)
      case Some(u) =>
        if !matches(password.value, u.password) then Refused(Unauthorized401)
        else Sent(Session(u.id, u.name, u.email))
  }

  // ---------------------------------------------------------------------------
  // Properties

  /** An email already present: 422, and no user is created. */
  lemma SignupDuplicate(db: Db, name: Field, email: Field, password: Field, hash: string -> string, escape: string -> string)
    requires !Falsy(name) && !Falsy(email) && !Falsy(password)
    requires EmailTakenBy(db.users, email.value)
    ensures Signup(db, name, email, password, true, hash, escape) == Outcome(Refused(Unprocessable422), db)
  {
  }

  /** An unused email: exactly one user is appended, under the next id, with that email,
      the sanitized name and the hash of the password, and the reply names it. */
  lemma SignupFresh(db: Db, name: Field, email: Field, password: Field, hash: string -> string, escape: string -> string)
    requires !Falsy(name) && !Falsy(email) && !Falsy(password)
    requires !EmailTakenBy(db.users, email.value)
    ensures var r := Signup(db, name, email, password, true, hash, escape);
            var user := User(db.nextUserId, escape(name.value), email.value, hash(password.value));
            && r.reply == Sent(Session(db.nextUserId, escape(name.value), email.value))
            && r.db.users == db.users + [user]
            && r.db.projects == db.projects && r.db.projectTechs == db.projectTechs
            && r.db.userFavs == db.userFavs && r.db.projectFavs == db.projectFavs
  {
  }

  /** A falsy required field stops both handlers before the users table is read: the
      database is unchanged and the answer does not depend on the credentials check. */
  lemma MissingFieldTouchesNothing(db: Db, name: Field, email: Field, password: Field, valid: bool,
                                   hash: string -> string, escape: string -> string,
                                   m1: (string, string) -> bool, m2: (string, string) -> bool)
    requires Falsy(name) || Falsy(email) || Falsy(password)
    ensures var r := Signup(db, name, email, password, valid, hash, escape);
            r.db == db && r.reply.Refused?
    ensures Falsy(email) || Falsy(password) ==>
              && Login(db, email, password, valid, m1) == Login(db, email, password, valid, m2)
              && Login(db, email, password, valid, m1).Refused?
  {
  }

  /** login: 401 for an unknown email and 401 for a wrong password; otherwise the stored
      user's id, name and email. */
  lemma LoginOutcomes(db: Db, email: Field, password: Field, matches: (string, string) -> bool)
    requires !Falsy(email) && !Falsy(password)
    ensures !EmailTakenBy(db.users, email.value) ==> Login(db, email, password, true, matches) == Refused(Unauthorized401)
    ensures EmailsUnique(db) ==>
              forall u :: u in db.users && u.email == email.value ==>
                Login(db, email, password, true, matches)
                == if matches(password.value, u.password) then Sent(Session(u.id, u.name, u.email)) else Refused(Unauthorized401)
  {
    if EmailsUnique(db) {
      forall u | u in db.users && u.email == email.value
        ensures FindUserByEmail(db.users, email.value) == Some(u)
      {
        FindByUnique(db.users, EmailKey, u);
      }
    }
  }

  /** signup keeps primary keys valid and emails unique: with the duplicate check, no two
      users ever share an address. */
  lemma SignupPreservesInvariants(db: Db, name: Field, email: Field, password: Field, valid: bool,
                                  hash: string -> string, escape: string -> string)
    requires KeysValid(db) && EmailsUnique(db)
    ensures var after := Signup(db, name, email, password, valid, hash, escape).db;
            KeysValid(after) && EmailsUnique(after)
  {
    var r := Signup(db, name, email, password, valid, hash, escape);
    if r.reply.Sent? {
      var user := User(db.nextUserId, escape(name.value), email.value, hash(password.value));
      UniqueByAppend(db.users, user, UserKey);
      UniqueByAppend(db.users, user, EmailKey);
    }
  }
}
