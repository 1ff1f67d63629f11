/** Registration and login, Server/routes/auth.js. bcrypt and JWT are
    parameters: `genSalt` (bcrypt.genSalt, given the cost factor), `hash`
    (bcrypt.hash of a password with a salt), `compare` (bcrypt.compare of a
    password with a stored hash) and `sign` (jwt.sign of a payload with the
    server's secret and a lifetime in hours). */
module AuthRoutes {
  import opened Common
  import opened JsText
  import opened Models
  import opened Store
  import opened Http

  /** The bcrypt cost factor passed to genSalt. */
  const SaltRounds := 10

  /** The token lifetime passed to jwt.sign (`expiresIn: '5h'`). */
  const TokenLifetimeHours := 5

  const UserExists := Reply(400, Msg("User already exists"))

  /** Sent as plain text. */
  const Registered := Reply(201, Msg("User registered successfully"))

  /** Registration's catch-all 500, sent as plain text: a failed save, or
      bcrypt refusing a missing password. */
  const SaveFailed := Reply(500, Msg("Server error"))

  /** Login's one failure reply, whichever check failed. */
  const InvalidCredentials := Reply(400, Msg("Invalid credentials"))

  /** Login's catch-all 500: bcrypt.compare refusing a missing password. */
  const LoginFailed := Reply(500, Msg("Server error"))

  // ---------------------------------------------------------------------
  // POST /register
  // ---------------------------------------------------------------------

  /** Registration. A roll number that is already taken (after trimming) is
      refused with 400 and nothing changes. A missing password (`None`) makes
      bcrypt.hash throw: 500, nothing saved. Otherwise the new user is saved
      with the trimmed roll number, the bcrypt hash of the password under a
      fresh cost-10 salt and no courses, and the reply is 201; the save fails
      with 500, changing nothing, when the roll number is blank or the hash is
      empty (the schema's `required` checks). */
  function RegisterSpec(s: State, rollNo: string, password: Option<string>,
                        genSalt: nat -> string, hash: (string, string) -> string): (o: Outcome)
    ensures FindOne(s, rollNo).Some? ==> o == Outcome(s, UserExists)
    ensures FindOne(s, rollNo).None? && password.None? ==> o == Outcome(s, SaveFailed)
    ensures FindOne(s, rollNo).None? && o.reply.status != 201 ==> o == Outcome(s, SaveFailed)
    ensures o.reply.status == 201 <==>
              && FindOne(s, rollNo).None? && password.Some? && !IsBlank(rollNo)
              && hash(password.value, genSalt(SaltRounds)) != ""
    ensures o.reply.status != 201 ==> o.state == s && o.reply in {UserExists, SaveFailed}
    ensures o.reply.status == 201 ==>
              && o.reply == Registered
              && o.state.courses == s.courses
              && o.state.nextId == s.nextId + 1
              && o.state.users == s.users[s.nextId := User(Trim(rollNo), hash(password.value, genSalt(SaltRounds)), [])]
  {
    if FindOne(s, rollNo).Some? then Outcome(s, UserExists)
    else if password.None? then Outcome(s, SaveFailed)
    else
      var user := User(Trim(rollNo), hash(password.value, genSalt(SaltRounds)), []);
      if !UserSchemaOk(user) then Outcome(s, SaveFailed)
      else Outcome(State(s.users[s.nextId := user], s.courses, s.nextId + 1), Registered)
  }

  /** A successful registration adds exactly one user, under a fresh id, and
      afterwards that user is the only one holding the roll number. */
  lemma RegisterAddsOneUser(s: State, rollNo: string, password: Option<string>,
                            genSalt: nat -> string, hash: (string, string) -> string)
    requires IdsIssued(s)
    requires RegisterSpec(s, rollNo, password, genSalt, hash).reply.status == 201
    ensures var t := RegisterSpec(s, rollNo, password, genSalt, hash).state;
      && s.nextId !in s.users
      && t.users.Keys == s.users.Keys + {s.nextId}
      && |t.users| == |s.users| + 1
      && (forall u :: u in t.users && t.users[u].rollNo == Trim(rollNo) ==> u == s.nextId)
  {
    var t := RegisterSpec(s, rollNo, password, genSalt, hash).state;
    var added := User(Trim(rollNo), hash(password.value, genSalt(SaltRounds)), []);
    assert t.users == s.users[s.nextId := added];
    assert s.nextId !in s.users;
    MapAddFresh(s.users, s.nextId, added);
    assert FindOne(s, rollNo).None?;
  }

  lemma RegisterKeepsInv(s: State, rollNo: string, password: Option<string>,
                         genSalt: nat -> string, hash: (string, string) -> string)
    requires Inv(s)
    ensures Inv(RegisterSpec(s, rollNo, password, genSalt, hash).state)
  {
    assert Holds(s, Ids);
    var o := RegisterSpec(s, rollNo, password, genSalt, hash);
    if o.reply.status == 201 {
      AddUserKeepsInv(s, User(Trim(rollNo), hash(password.value, genSalt(SaltRounds)), []));
    }
  }

  /** Registering a roll number a second time is refused, whatever password
      either attempt carried. */
  lemma RegisterTwiceRefused(s: State, rollNo: string, p1: Option<string>, p2: Option<string>,
                             genSalt: nat -> string, hash: (string, string) -> string)
    requires RegisterSpec(s, rollNo, p1, genSalt, hash).reply.status == 201
    ensures var t := RegisterSpec(s, rollNo, p1, genSalt, hash).state;
      RegisterSpec(t, rollNo, p2, genSalt, hash) == Outcome(t, UserExists)
  {
    var t := RegisterSpec(s, rollNo, p1, genSalt, hash).state;
    assert s.nextId in t.users && t.users[s.nextId].rollNo == Trim(rollNo);
    assert FindOne(t, rollNo).Some?;
  }

  /** The imperative route: look up, draw a salt, hash the password (a
      missing one throws), build the user, save. */
  method Register(db: Db, rollNo: string, password: Option<string>,
                  genSalt: nat -> string, hash: (string, string) -> string) returns (reply: Reply)
    requires db.Valid()
    modifies db
    ensures db.Valid()
    ensures Outcome(db.View(), reply) == RegisterSpec(old(db.View()), rollNo, password, genSalt, hash)
  {
    ghost var s := db.View();
    RegisterKeepsInv(s, rollNo, password, genSalt, hash);
    var existing := FindOne(db.View(), rollNo);
    if existing.Some? {
      return UserExists;
    }
    var salt := genSalt(SaltRounds);
    if password.None? {
      return SaveFailed;
    }
    var user := User(Trim(rollNo), hash(password.value, salt), []);
    if !UserSchemaOk(user) {
      return SaveFailed;
    }
    db.users := db.users[db.nextId := user];
    db.nextId := db.nextId + 1;
    reply := Registered;
  }

  // ---------------------------------------------------------------------
  // POST /login
  // ---------------------------------------------------------------------

  /** The payload login signs: `{ user: { id } }`, with no role. */
  function LoginClaims(id: Id): (c: Claims)
    ensures c.user.Some? && c.user.value.id == id && c.user.value.role.None?
  {
    Claims(Some(Principal(id, None)))
  }

  /** Login reads the store and changes nothing. An unknown roll number and a
      wrong password give the same 400 reply; a missing password (`None`) for
      a known roll number makes bcrypt.compare throw, giving 500; otherwise the
      reply carries a 5-hour token over the user's id alone, and the user's id. */
  function Login(s: State, rollNo: string, password: Option<string>,
                 compare: (string, string) -> bool, sign: (Claims, nat) -> string): (r: Reply)
    ensures FindOne(s, rollNo).None? ==> r == InvalidCredentials
    ensures r == LoginFailed <==> FindOne(s, rollNo).Some? && password.None?
    ensures FindOne(s, rollNo).Some? && password.Some? && r.status != 200 ==> r == InvalidCredentials
    ensures r.status == 200 <==>
              && FindOne(s, rollNo).Some? && password.Some?
              && compare(password.value, s.users[FindOne(s, rollNo).value].password)
    ensures r.status != 200 ==> r in {InvalidCredentials, LoginFailed}
    ensures r.status == 200 ==>
              var id := FindOne(s, rollNo).value;
              r.body == TokenDoc(sign(LoginClaims(id), TokenLifetimeHours), id)
  {
    match FindOne(s, rollNo)
    case None => InvalidCredentials
    case Some(id) =>
      if password.None? then LoginFailed
      else if !compare(password.value, s.users[id].password) then InvalidCredentials
      else Reply(200, TokenDoc(sign(LoginClaims(id), TokenLifetimeHours), id))
  }

  /** Register then log in: when bcrypt.compare accepts a password against its
      own hash, the new user can log in with the password just registered and
      receives a token for the new id. */
  lemma RegisterThenLogin(s: State, rollNo: string, password: Option<string>,
                          genSalt: nat -> string, hash: (string, string) -> string,
                          compare: (string, string) -> bool, sign: (Claims, nat) -> string)
    requires Inv(s)
    requires RegisterSpec(s, rollNo, password, genSalt, hash).reply.status == 201
    requires compare(password.value, hash(password.value, genSalt(SaltRounds)))
    ensures Login(RegisterSpec(s, rollNo, password, genSalt, hash).state, rollNo, password, compare, sign)
            == Reply(200, TokenDoc(sign(LoginClaims(s.nextId), TokenLifetimeHours), s.nextId))
  {
    InvParts(s);
    var t := RegisterSpec(s, rollNo, password, genSalt, hash).state;
    RegisterAddsOneUser(s, rollNo, password, genSalt, hash);
    assert FindOne(t, rollNo).Some?;
  }
}
