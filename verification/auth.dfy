/** Registration, login and the profile of the authenticated user. Password hashing, the
    hash comparison and token signing are left abstract: hashing and comparing are
    parameters, and a token is represented by the claims and lifetime it is signed with. */
module Auth {
  import opened Options
  import opened Seqs
  import opened JsValues
  import opened Store
  import opened Validators

  const LoginEmailRequired := "O email é obrigatório"
  const LoginEmailMalformed := "Formato de email inválido"
  const LoginPasswordRequired := "A senha é obrigatória"

  /** The lifetime the login token is signed with. */
  const TokenLifetime := "1d"

  /** No two users share an email address, the uniqueness the `user` table's email column has. */
  predicate UniqueEmails(db: Db) {
    forall i, j :: 0 <= i < j < |db.users| ==> db.users[i].email != db.users[j].email
  }

  // ---------------------------------------------------------------- register

  datatype RegisterResponse =
    | RegisterRejected(errors: seq<FieldError>)
    | EmailTaken
    | RegisterFailed
    | Registered(name: string, email: string)
  {
    function Status(): nat {
      match this
      case RegisterRejected(_) => 400
      case EmailTaken => 400
      case RegisterFailed => 500
      case Registered(_, _) => 201
    }
  }

  /** Violations as the response lists them, in the same order. */
  function FieldErrors(vs: seq<Violation>): (r: seq<FieldError>)
    ensures |r| == |vs|
    ensures forall i :: 0 <= i < |vs| ==> r[i] == vs[i].ToFieldError()
  {
    seq(|vs|, i requires 0 <= i < |vs| => vs[i].ToFieldError())
  }

  /** The violations of the three fields, name first, then email, then password, as sent. */
  function RegistrationErrors(name: Option<string>, email: Option<string>, password: Option<string>,
                              isEmail: string -> bool): (r: seq<FieldError>)
    ensures r == [] <==> ValidateName(name) == [] && ValidateEmail(email, isEmail) == [] && ValidatePassword(password) == []
  {
    FieldErrors(ValidateName(name) + ValidateEmail(email, isEmail) + ValidatePassword(password))
  }

  /** The registration errors come grouped by field: every error about the name, then every
      error about the email, then every error about the password, each block in the order its
      validator reports them. */
  lemma {:induction false} RegistrationErrorsGrouped(name: Option<string>, email: Option<string>, password: Option<string>,
                                                     isEmail: string -> bool)
    ensures var r := RegistrationErrors(name, email, password, isEmail);
      var n, e, p := ValidateName(name), ValidateEmail(email, isEmail), ValidatePassword(password);
      var a := |n|;
      var b := a + |e|;
      && |r| == b + |p|
      && (forall i :: 0 <= i < a ==> r[i] == n[i].ToFieldError() && r[i].field == "name")
      && (forall i :: a <= i < b ==> r[i] == e[i - a].ToFieldError() && r[i].field == "email")
      && (forall i :: b <= i < |r| ==> r[i] == p[i - b].ToFieldError() && r[i].field == "password")
  {
    NameErrorsField(name);
    PasswordErrorsField(password);
    FieldBlocks(ValidateName(name), ValidateEmail(email, isEmail), ValidatePassword(password));
  }

  /** The field errors of `n + e + p` are those of `n`, then those of `e`, then those of `p`,
      each block about the field its violations are about. */
  lemma {:induction false} FieldBlocks(n: seq<Violation>, e: seq<Violation>, p: seq<Violation>)
    requires forall v :: v in n ==> v.Field() == "name"
    requires forall v :: v in e ==> v.Field() == "email"
    requires forall v :: v in p ==> v.Field() == "password"
    ensures var r := FieldErrors(n + e + p);
      var a := |n|;
      var b := a + |e|;
      && |r| == b + |p|
      && (forall i :: 0 <= i < a ==> r[i] == n[i].ToFieldError() && r[i].field == "name")
      && (forall i :: a <= i < b ==> r[i] == e[i - a].ToFieldError() && r[i].field == "email")
      && (forall i :: b <= i < |r| ==> r[i] == p[i - b].ToFieldError() && r[i].field == "password")
  {
    var all := n + e + p;
    assert all == [] + n + (e + p) by {
      assert n + e + p == n + (e + p);
    }
    GroupAt(all, [], n, e + p, "name");
    GroupAt(all, n, e, p, "email");
    assert all == (n + e) + p + [];
    GroupAt(all, n + e, p, [], "password");
  }

  /** The field errors of the middle part of `pre + mid + post` sit after those of `pre`,
      all about `field` when its violations are. */
  lemma {:induction false} GroupAt(all: seq<Violation>, pre: seq<Violation>, mid: seq<Violation>, post: seq<Violation>, field: string)
    requires all == pre + mid + post
    requires forall v :: v in mid ==> v.Field() == field
    ensures var r := FieldErrors(all);
      && |r| == |pre| + |mid| + |post|
      && forall i :: |pre| <= i < |pre| + |mid| ==> r[i] == mid[i - |pre|].ToFieldError() && r[i].field == field
  {
    var r := FieldErrors(all);
    forall i | |pre| <= i < |pre| + |mid| ensures r[i] == mid[i - |pre|].ToFieldError() && r[i].field == field {
      assert all[i] == mid[i - |pre|];
      assert mid[i - |pre|] in mid;
    }
  }

  /** `register`. `hash` is the password hash; the plain password is never stored. */
  function Register(db: Db, fault: Option<Thrown>, name: Option<string>, email: Option<string>, password: Option<string>,
                    isEmail: string -> bool, hash: string -> string): (r: Served<RegisterResponse>)
    ensures r.response.RegisterRejected? <==> RegistrationErrors(name, email, password, isEmail) != []
    ensures r.response.RegisterRejected? ==> r.response.errors == RegistrationErrors(name, email, password, isEmail)
    ensures RegistrationErrors(name, email, password, isEmail) == [] && fault.Some? ==> r.response == RegisterFailed
    ensures RegistrationErrors(name, email, password, isEmail) == [] && fault.None? ==>
      && (r.response.Registered? <==> FindUserByEmail(db, email.value).None?)
      && (r.response == EmailTaken <==> FindUserByEmail(db, email.value).Some?)
    ensures !r.response.Registered? ==> r.db == db
    ensures r.response.Registered? ==>
      && name.Some? && email.Some? && password.Some? && fault.None?
      && r.response.name == name.value && r.response.email == email.value
      && FindUserByEmail(db, email.value).None?
      && |r.db.users| == |db.users| + 1 && r.db.users == db.users + [r.db.users[|db.users|]]
      && r.db.users[|db.users|].name == name.value
      && r.db.users[|db.users|].email == email.value
      && r.db.users[|db.users|].password == hash(password.value)
      && r.db.datasets == db.datasets && r.db.records == db.records && r.db.queries == db.queries
      && (FreshIds(db) ==> FreshIds(r.db) && forall i :: 0 <= i < |db.users| ==> db.users[i].id != r.db.users[|db.users|].id)
  {
    var errors := RegistrationErrors(name, email, password, isEmail);
    if errors != [] then Served(RegisterRejected(errors), db)
    else if fault.Some? then Served(RegisterFailed, db)
    else if FindUserByEmail(db, email.value).Some? then Served(EmailTaken, db)
    else
      var c := CreateUser(db, name.value, email.value, hash(password.value));
      Served(Registered(c.row.name, c.row.email), c.db)
  }

  /** Registration keeps email addresses unique, and a second registration with an address
      already in use is refused. */
  lemma {:induction false} RegisterKeepsEmailsUnique(db: Db, name: Option<string>, email: Option<string>, password: Option<string>,
                                                     isEmail: string -> bool, hash: string -> string)
    requires UniqueEmails(db)
    ensures UniqueEmails(Register(db, None, name, email, password, isEmail, hash).db)
  {
    var r := Register(db, None, name, email, password, isEmail, hash);
    if r.response.Registered? {
      var n := |db.users|;
      forall i, j | 0 <= i < j < |r.db.users| ensures r.db.users[i].email != r.db.users[j].email {
        if j == n {
          assert r.db.users[i] == db.users[i];
        } else {
          assert r.db.users[i] == db.users[i] && r.db.users[j] == db.users[j];
        }
      }
    }
  }

  /** An address already registered is refused with `EmailTaken` once the fields are valid. */
  lemma {:induction false} RegisteredEmailTaken(db: Db, u: User, name: Option<string>, password: Option<string>,
                                                isEmail: string -> bool, hash: string -> string)
    requires u in db.users
    requires RegistrationErrors(name, Some(u.email), password, isEmail) == []
    ensures Register(db, None, name, Some(u.email), password, isEmail, hash) == Served(EmailTaken, db)
  {
  }

  // ---------------------------------------------------------------- login

  /** The claims a login token is signed over. */
  datatype Claims = Claims(id: nat, email: string, name: string)

  datatype LoginResponse =
    | LoginRejected(errors: seq<FieldError>)
    | LoginFailed
    | UnknownUser
    | WrongPassword
    | Token(claims: Claims, expiresIn: string)
  {
    function Status(): nat {
      match this
      case LoginRejected(_) => 400
      case LoginFailed => 500
      case UnknownUser => 404
      case WrongPassword => 401
      case Token(_, _) => 200
    }
  }

  /** A field the login form requires: absent and the empty string both count as missing. */
  predicate Blank(v: Option<string>) {
    v.None? || v.value == ""
  }

  /** The login form checks: the email (missing, else malformed), then the password. */
  function LoginErrors(email: Option<string>, password: Option<string>, isEmail: string -> bool): (r: seq<FieldError>)
    ensures r == [] <==> !Blank(email) && isEmail(email.value) && !Blank(password)
    ensures |r| <= 2
    ensures Blank(password) <==> FieldError("password", LoginPasswordRequired) in r
    ensures Blank(email) <==> FieldError("email", LoginEmailRequired) in r
    ensures FieldError("email", LoginEmailMalformed) in r <==> !Blank(email) && !isEmail(email.value)
    ensures |r| == 2 ==> r[0].field == "email" && r[1] == FieldError("password", LoginPasswordRequired)
  {
    var emailErrors :=
      if Blank(email) then [FieldError("email", LoginEmailRequired)]
      else if !isEmail(email.value) then [FieldError("email", LoginEmailMalformed)]
      else [];
    emailErrors + (if Blank(password) then [FieldError("password", LoginPasswordRequired)] else [])
  }

  /** `login`. `compare` is the check of a plain password against a stored hash. */
  function Login(db: Db, fault: Option<Thrown>, email: Option<string>, password: Option<string>,
                 isEmail: string -> bool, compare: (string, string) -> bool): (r: LoginResponse)
    ensures r.LoginRejected? <==> LoginErrors(email, password, isEmail) != []
    ensures r.LoginRejected? ==> r.errors == LoginErrors(email, password, isEmail)
    ensures LoginErrors(email, password, isEmail) == [] && fault.Some? ==> r.LoginFailed?
    ensures LoginErrors(email, password, isEmail) == [] && fault.None? ==>
      var found := FindUserByEmail(db, email.value);
      && (r.UnknownUser? <==> found.None?)
      && (r.WrongPassword? <==> found.Some? && !compare(password.value, found.value.password))
      && (r.Token? <==> found.Some? && compare(password.value, found.value.password))
      && (r.Token? ==> r == Token(Claims(found.value.id, found.value.email, found.value.name), TokenLifetime))
    ensures r.UnknownUser? ==> forall u :: u in db.users ==> u.email != email.value
    ensures r.WrongPassword? ==> exists u :: u in db.users && u.email == email.value && !compare(password.value, u.password)
    ensures r.Token? ==>
      && fault.None? && r.expiresIn == TokenLifetime
      && exists u :: u in db.users && u.email == email.value && compare(password.value, u.password)
                     && r.claims == Claims(u.id, u.email, u.name)
  {
    var errors := LoginErrors(email, password, isEmail);
    if errors != [] then LoginRejected(errors)
    else if fault.Some? then LoginFailed
    else
      match FindUserByEmail(db, email.value)
      case None => UnknownUser
      case Some(u) =>
        if !compare(password.value, u.password) then WrongPassword
        else Token(Claims(u.id, u.email, u.name), TokenLifetime)
  }

  /** Registering and then logging in with the same address and password yields a token for the
      new user, when the comparison accepts a password against its own hash. */
  lemma {:induction false} RegisterThenLogin(db: Db, name: Option<string>, email: Option<string>, password: Option<string>,
                                             isEmail: string -> bool, hash: string -> string, compare: (string, string) -> bool)
    requires Register(db, None, name, email, password, isEmail, hash).response.Registered?
    requires compare(password.value, hash(password.value))
    ensures var users := Register(db, None, name, email, password, isEmail, hash).db.users;
      Login(Register(db, None, name, email, password, isEmail, hash).db, None, email, password, isEmail, compare)
      == Token(Claims(users[|db.users|].id, email.value, name.value), TokenLifetime)
  {
    var r := Register(db, None, name, email, password, isEmail, hash);
    assert ValidateEmail(email, isEmail) == [] && ValidatePassword(password) == [];
    PasswordNotEmpty(password.value);
    AppendedEmailFound(db.users, r.db.users[|db.users|], r.db);
  }

  /** A user appended under an address no earlier user has is the one found by it. */
  lemma {:induction false} AppendedEmailFound(before: seq<User>, u: User, db: Db)
    requires db.users == before + [u]
    requires forall i :: 0 <= i < |before| ==> before[i].email != u.email
    ensures FindUserByEmail(db, u.email) == Some(u)
  {
    var found := FindUserByEmail(db, u.email);
    assert db.users[|before|] == u;
    var k :| 0 <= k < |db.users| && db.users[k] == found.value;
    if k < |before| {
      assert db.users[k] == before[k];
    }
  }

  /** A password the validator accepts is not empty. */
  lemma {:induction false} PasswordNotEmpty(p: string)
    requires ValidatePassword(Some(p)) == []
    ensures p != ""
  {
    PasswordAcceptedIff(Some(p));
  }

  // ---------------------------------------------------------------- profile

  datatype ProfileResponse =
    | ProfileFailed
    | ProfileNotFound
    | Profile(id: nat, name: string, email: string)
  {
    function Status(): nat {
      match this
      case ProfileFailed => 500
      case ProfileNotFound => 404
      case Profile(_, _, _) => 200
    }
  }

  /** `getMe` for the authenticated user `userId`: the user's identifier, name and email, never
      the password hash. */
  function GetMe(db: Db, fault: Option<Thrown>, userId: nat): (r: ProfileResponse)
    ensures fault.Some? <==> r.ProfileFailed?
    ensures fault.None? ==> (r.ProfileNotFound? <==> forall u :: u in db.users ==> u.id != userId)
    ensures r.Profile? ==> r.id == userId && exists u :: u in db.users && u.id == userId && u.name == r.name && u.email == r.email
  {
    if fault.Some? then ProfileFailed
    else
      match FindUserById(db, userId)
      case None => ProfileNotFound
      case Some(u) => Profile(u.id, u.name, u.email)
  }

  /** A newly registered user's profile is the name and address they registered with. */
  lemma {:induction false} RegisteredProfile(db: Db, name: Option<string>, email: Option<string>, password: Option<string>,
                                             isEmail: string -> bool, hash: string -> string)
    requires FreshIds(db)
    requires Register(db, None, name, email, password, isEmail, hash).response.Registered?
    ensures var users := Register(db, None, name, email, password, isEmail, hash).db.users;
      GetMe(Register(db, None, name, email, password, isEmail, hash).db, None, users[|db.users|].id)
      == Profile(users[|db.users|].id, name.value, email.value)
  {
    var r := Register(db, None, name, email, password, isEmail, hash);
    AppendedUserFound(db.users, r.db.users[|db.users|], r.db);
  }

  /** A user appended under an identifier no earlier user has is the one found by it. */
  lemma {:induction false} AppendedUserFound(before: seq<User>, u: User, db: Db)
    requires db.users == before + [u]
    requires forall i :: 0 <= i < |before| ==> before[i].id != u.id
    ensures FindUserById(db, u.id) == Some(u)
  {
    var found := FindUserById(db, u.id);
    assert db.users[|before|] == u;
    var k :| 0 <= k < |db.users| && db.users[k] == found.value;
    if k < |before| {
      assert db.users[k] == before[k];
    }
  }
}
