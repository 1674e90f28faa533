/** User accounts: registration, login, e-mail verification, rename and removal.

 Registration stores the salted password hash, opens the user's base-currency
 position with the starting endowment and sends the verification mail, all in
 one transaction. An account starts in the status with id 1 (UNVERIFIED) and
 can log in once the verification link has moved it to VERIFIED.

 The hash function, the decryption of the verification link and the outcome
 of sending the mail are parameters.
 */
module Users {
  import opened Errors
  import opened Seqs
  import opened TradeDto
  import opened PositionDto
  import opened TriggerDto
  import opened Store
  import opened Positions
  import opened Strategies

  const UsernameTaken := "Username already exists."
  const EmailTaken := "Email already in use."
  const BadCredentials := "Incorrect credentials."
  const NotVerified := "Unverified account. Please check your e-mail."
  const InvalidLink := "Invalid link."
  const OnlyUnverified := "Only unverified users can be verified."

  /** What decrypting a verification link gives: the username, a cipher
      failure, or any other fault (such as a link that is not base64). */
  datatype Decryption = Plain(text: string) | CipherFailure | OtherFailure(message: string)

  /** A user as the API returns it: password hash and salt blanked. */
  function Public(u: User): User {
    u.(password := "", salt := "")
  }

  function UserId(u: User): int {
    u.id
  }

  function Username(u: User): string {
    u.username
  }

  function StatusId(n: Named): int {
    n.id
  }

  /** Every row of `s` was inserted before the fresh-id counter reached its current value. */
  ghost predicate UserIdsBelowNext(s: Store) {
    forall i :: 0 <= i < |s.users| ==> s.users[i].id < s.nextId
  }

  /** Registers `username`: rejects a taken username, then a taken e-mail, then
      inserts the account, opens its base-currency position and sends the mail. */
  function CreateUser(s: Store, username: string, password: string, email: string, salt: string, now: int,
                      hash: string -> string, mail: Result<()>): (o: Outcome<User>)
    ensures o.result.Err? ==> o.store == s
    ensures UserByName(s, username).Some? ==> o == Abort(s, BadRequest(UsernameTaken))
    ensures UserByName(s, username).None? && UserByEmail(s, email).Some? ==> o == Abort(s, BadRequest(EmailTaken))
    ensures UserByName(s, username).None? && UserByEmail(s, email).None? && BaseCrypto(s).None?
            ==> o == Abort(s, InternalServerError(NullReference))
    ensures o.result.Ok? <==> && UserByName(s, username).None? && UserByEmail(s, email).None?
                              && BaseCrypto(s).Some? && Holding(s, s.nextId, BaseCrypto(s).value.id).None?
                              && mail.Ok?
    ensures o.result.Ok? ==>
              var u := User(s.nextId, username, hash(password + salt), email, now, salt, InitialStatusId);
              && o.store == s.(users := s.users + [u],
                               positions := s.positions + [Position(s.nextId + 1, s.nextId, BaseCrypto(s).value.id, Endowment)],
                               nextId := s.nextId + 2)
              && o.result.value.id == s.nextId
              && o.result.value.password == "" && o.result.value.salt == ""
              && (UserIdsBelowNext(s) ==> o.result.value == Public(u))
  {
    if UserByName(s, username).Some? then Abort(s, BadRequest(UsernameTaken))
    else if UserByEmail(s, email).Some? then Abort(s, BadRequest(EmailTaken))
    else
      var (s1, u) := InsertUser(s, username, hash(password + salt), email, now, salt, InitialStatusId);
      assert s1.cryptos == s.cryptos && s1.positions == s.positions;
      var work: Result<(Store, User)> :=
        match BaseCrypto(s1)
        case None => Err(InternalServerError(NullReference))
        case Some(usd) =>
          var created :- CreatePositionTx(s1, u.id, usd.id, Endowment);
          if mail.Err? then Err(mail.error)
          else
            var s2 := created.0;
            assert s2.users[|s.users|] == u;
            var stored := UserById(s2, u.id).value;
            assert UserIdsBelowNext(s) ==> stored == u by {
              if UserIdsBelowNext(s) {
                assert forall i :: 0 <= i < |s.users| ==> s2.users[i] == s.users[i];
              }
            }
            Ok((s2, Public(stored)));
      Settle(s, work)
  }

  /** The account `id`, or NotFound. */
  function GetUser(s: Store, id: int): (r: Result<User>)
    ensures r.Ok? ==> r.value in s.users && r.value.id == id
    ensures r.Err? <==> forall i :: 0 <= i < |s.users| ==> s.users[i].id != id
    ensures r.Err? ==> r.error == NotFound(UserIdNotFound)
  {
    match UserById(s, id)
    case None => Err(NotFound(UserIdNotFound))
    case Some(u) => Ok(u)
  }

  /** Checks a login: the account must exist, the salted hash of `password`
      must match, and the account must not be UNVERIFIED. */
  function VerifyUserAuthentication(s: Store, username: string, password: string, hash: string -> string): (r: Result<()>)
    ensures UserByName(s, username).None? ==> r == Err(NotFound(UsernameNotFound))
    ensures r.Err? && r.error.Unauthorized? ==> r.error.message in {BadCredentials, NotVerified}
    ensures r.Ok? ==> exists i :: 0 <= i < |s.users| && s.users[i].username == username
                        && s.users[i].password == hash(password + UserByName(s, username).value.salt)
                        && StatusById(s, s.users[i].statusId).Some?
                        && StatusById(s, s.users[i].statusId).value.name != UnverifiedName
  {
    match UserByName(s, username)
    case None => Err(NotFound(UsernameNotFound))
    case Some(u) =>
      match UserByCredentials(s, username, hash(password + u.salt))
      case None => Err(Unauthorized(BadCredentials))
      case Some(v) =>
        match StatusById(s, v.statusId)
        case None => Err(InternalServerError(NullReference))
        case Some(status) =>
          if status.name == UnverifiedName then Err(Unauthorized(NotVerified)) else Ok(())
  }

  /** With one account per username, a login succeeds exactly when the password
      hashes to the stored hash and the account's status is known and not UNVERIFIED. */
  lemma LoginIffCredentials(s: Store, username: string, password: string, hash: string -> string)
    requires UniqueBy(s.users, Username)
    requires UserByName(s, username).Some?
    ensures var u := UserByName(s, username).value;
            var status := StatusById(s, u.statusId);
            && (VerifyUserAuthentication(s, username, password, hash).Ok?
                <==> u.password == hash(password + u.salt) && status.Some? && status.value.name != UnverifiedName)
            && (u.password != hash(password + u.salt)
                ==> VerifyUserAuthentication(s, username, password, hash) == Err(Unauthorized(BadCredentials)))
  {
    var u := UserByName(s, username).value;
    var i :| 0 <= i < |s.users| && s.users[i] == u;
    var hashed := hash(password + u.salt);
    if u.password == hashed {
      FirstOfUniqueKey(s.users, Username, username, i, (v: User) => v.username == username && v.password == hashed);
    } else {
      forall j | 0 <= j < |s.users| && s.users[j].username == username ensures j == i {
        UniqueKeyIndex(s.users, Username, i, j);
      }
    }
  }

  /** Marks the account named by a verification link as VERIFIED. */
  function ValidateUser(s: Store, decrypted: Decryption): (o: Outcome<()>)
    ensures o.result.Err? ==> o.store == s
    ensures decrypted.CipherFailure? ==> o == Abort(s, BadRequest(InvalidLink))
    ensures decrypted.OtherFailure? ==> o == Abort(s, InternalServerError(decrypted.message))
    ensures decrypted.Plain? && UserByName(s, decrypted.text).None? ==> o == Abort(s, NotFound(UsernameNotFound))
    ensures o.result.Ok? <==>
              && decrypted.Plain? && UserByName(s, decrypted.text).Some?
              && var status := StatusById(s, UserByName(s, decrypted.text).value.statusId);
              && status.Some? && status.value.name == UnverifiedName
              && StatusByName(s, VerifiedName).Some?
    ensures o.result.Ok? ==>
              var u := UserByName(s, decrypted.text).value;
              && o.store == s.(users := o.store.users)
              && |o.store.users| == |s.users|
              && forall i :: 0 <= i < |s.users| ==>
                   o.store.users[i] == (if s.users[i].id == u.id
                                        then s.users[i].(statusId := StatusByName(s, VerifiedName).value.id)
                                        else s.users[i])
  {
    match decrypted
    case CipherFailure => Abort(s, BadRequest(InvalidLink))
    case OtherFailure(m) => Abort(s, InternalServerError(m))
    case Plain(username) =>
      match UserByName(s, username)
      case None => Abort(s, NotFound(UsernameNotFound))
      case Some(u) =>
        match StatusById(s, u.statusId)
        case None => Abort(s, InternalServerError(NullReference))
        case Some(current) =>
          if current.name != UnverifiedName then Abort(s, BadRequest(OnlyUnverified))
          else match StatusByName(s, VerifiedName)
          case None => Abort(s, InternalServerError(NullReference))
          case Some(verified) => Outcome(SetUserStatus(s, u.id, verified.id), Ok(()))
  }

  /** Renames account `id`; a username already in use is refused, the account's own included. */
  function UpdateUser(s: Store, id: int, username: string): (o: Outcome<User>)
    ensures o.result.Err? ==> o.store == s
    ensures UserById(s, id).None? ==> o == Abort(s, NotFound(UserIdNotFound))
    ensures UserById(s, id).Some? && UserByName(s, username).Some? ==> o == Abort(s, BadRequest(UsernameTaken))
    ensures o.result.Ok? <==> UserById(s, id).Some? && UserByName(s, username).None?
    ensures o.result.Ok? ==>
              && o.result.value.id == id && o.result.value.username == username
              && o.result.value.password == "" && o.result.value.salt == ""
              && o.store == s.(users := o.store.users)
              && |o.store.users| == |s.users|
              && forall i :: 0 <= i < |s.users| ==>
                   o.store.users[i] == (if s.users[i].id == id then s.users[i].(username := username) else s.users[i])
  {
    if UserById(s, id).None? then Abort(s, NotFound(UserIdNotFound))
    else if UserByName(s, username).Some? then Abort(s, BadRequest(UsernameTaken))
    else
      var s1 := SetUserName(s, id, username);
      var row := UserById(s1, id);
      assert row.Some? && row.value.username == username by {
        var i :| 0 <= i < |s.users| && s.users[i] == UserById(s, id).value;
        assert s1.users[i].id == id;
        var j :| 0 <= j < |s1.users| && s1.users[j] == row.value;
      }
      Outcome(s1, Ok(Public(row.value)))
  }

  /** Removes account `id` with everything it owns: positions, trades, and
      strategies together with their triggers. */
  function DeleteUser(s: Store, id: int): (o: Outcome<()>)
    ensures o.result.Err? ==> o.store == s
    ensures o.result.Err? <==> UserById(s, id).None?
    ensures o.result.Err? ==> o.result.error == NotFound(UserIdNotFound)
    ensures o.result.Ok? ==>
              o.store == s.(users := Filter(s.users, (u: User) => u.id != id),
                            positions := Filter(s.positions, (p: Position) => p.userId != id),
                            trades := Filter(s.trades, (t: Trade) => t.userId != id),
                            strategies := Filter(s.strategies, (st: Strategy) => st.userId != id),
                            triggers := Filter(s.triggers, (t: Trigger) => t.strategyId !in Ids(StrategiesOf(s, id))))
  {
    if UserById(s, id).None? then Abort(s, NotFound(UserIdNotFound))
    else
      var s1 := s.(positions := Filter(s.positions, (p: Position) => p.userId != id),
                   trades := Filter(s.trades, (t: Trade) => t.userId != id));
      var owned := StrategiesOf(s, id);
      OwnedStrategiesExist(s, id);
      OwnedStrategiesAreAll(s, id);
      var s2 := DeleteStrategiesTx(s, s1, owned, id).value;
      Outcome(DeleteUserRow(s2, id), Ok(()))
  }

  /** Each strategy the user owns passes the existence check of its deletion. */
  lemma OwnedStrategiesExist(s: Store, id: int)
    ensures var owned := StrategiesOf(s, id);
            forall i :: 0 <= i < |owned| ==> GetStrategy(s, owned[i].id, id).Ok?
  {
    var owned := StrategiesOf(s, id);
    forall i | 0 <= i < |owned| ensures GetStrategy(s, owned[i].id, id).Ok? {
      var j :| 0 <= j < |s.strategies| && s.strategies[j] == owned[i];
      assert s.strategies[j].id == owned[i].id && s.strategies[j].userId == id;
    }
  }

  /** Deleting the user's strategies one by one deletes every strategy the user owns. */
  lemma OwnedStrategiesAreAll(s: Store, id: int)
    ensures var ids := Ids(StrategiesOf(s, id));
            Filter(s.strategies, (st: Strategy) => !(st.id in ids && st.userId == id))
            == Filter(s.strategies, (st: Strategy) => st.userId != id)
  {
    var owned := StrategiesOf(s, id);
    var ids := Ids(owned);
    forall i | 0 <= i < |s.strategies| && s.strategies[i].userId == id ensures s.strategies[i].id in ids {
      var j :| 0 <= j < |owned| && owned[j] == s.strategies[i];
    }
    FilterExt(s.strategies, (st: Strategy) => !(st.id in ids && st.userId == id), (st: Strategy) => st.userId != id);
  }

  // ----- the account life cycle -----

  /** The statuses the life cycle relies on: status 1 is UNVERIFIED, a VERIFIED
      status exists, and status ids are unique. */
  ghost predicate StatusesReady(s: Store) {
    && StatusById(s, InitialStatusId).Some? && StatusById(s, InitialStatusId).value.name == UnverifiedName
    && StatusByName(s, VerifiedName).Some?
    && UniqueBy(s.statuses, StatusId)
  }

  /** The status a VERIFIED account has is the VERIFIED status. */
  lemma VerifiedStatusIsVerified(s: Store)
    requires StatusesReady(s)
    ensures var v := StatusByName(s, VerifiedName).value;
            StatusById(s, v.id) == Some(v) && v.name == VerifiedName
  {
    var v := StatusByName(s, VerifiedName).value;
    var k :| 0 <= k < |s.statuses| && s.statuses[k] == v;
    FirstOfUniqueKey(s.statuses, StatusId, v.id, k, (t: Named) => t.id == v.id);
  }

  /** Registration appends the new account as the last row, where a lookup by its username finds it. */
  lemma Registered(s: Store, username: string, password: string, email: string, salt: string, now: int,
                   hash: string -> string, mail: Result<()>)
    requires CreateUser(s, username, password, email, salt, now, hash, mail).result.Ok?
    ensures var s1 := CreateUser(s, username, password, email, salt, now, hash, mail).store;
            var k := |s.users|;
            && |s1.users| == k + 1 && s1.statuses == s.statuses
            && s1.users[k] == User(s.nextId, username, hash(password + salt), email, now, salt, InitialStatusId)
            && (forall j :: 0 <= j < k ==> s1.users[j] == s.users[j] && s1.users[j].username != username)
            && UserByName(s1, username) == Some(s1.users[k])
  {
    var s1 := CreateUser(s, username, password, email, salt, now, hash, mail).store;
    var k := |s.users|;
    assert forall j :: 0 <= j < k ==> s1.users[j] == s.users[j];
    FirstAt(s1.users, (v: User) => v.username == username, k);
  }

  /** A freshly registered account exists under its username, and a login with
      the registration password is refused only because it is not yet verified. */
  lemma NewAccountIsUnverified(s: Store, username: string, password: string, email: string, salt: string, now: int,
                               hash: string -> string, mail: Result<()>, attempt: string)
    requires CreateUser(s, username, password, email, salt, now, hash, mail).result.Ok?
    requires StatusById(s, InitialStatusId).Some? && StatusById(s, InitialStatusId).value.name == UnverifiedName
    ensures var s1 := CreateUser(s, username, password, email, salt, now, hash, mail).store;
            && UserByName(s1, username).Some? && UserByName(s1, username).value.id == s.nextId
            && VerifyUserAuthentication(s1, username, password, hash) == Err(Unauthorized(NotVerified))
            && (hash(attempt + salt) != hash(password + salt)
                ==> VerifyUserAuthentication(s1, username, attempt, hash) == Err(Unauthorized(BadCredentials)))
  {
    var s1 := CreateUser(s, username, password, email, salt, now, hash, mail).store;
    var k := |s.users|;
    Registered(s, username, password, email, salt, now, hash, mail);
    FirstAt(s1.users, (v: User) => v.username == username && v.password == hash(password + salt), k);
    var bad := hash(attempt + salt);
    if bad != hash(password + salt) {
      assert First(s1.users, (v: User) => v.username == username && v.password == bad).None? by {
        forall j | 0 <= j < |s1.users| ensures !(s1.users[j].username == username && s1.users[j].password == bad) {
          if j < k { assert s1.users[j] == s.users[j]; }
        }
      }
    }
  }

  /** Row `k`, the account a verification link names, is the row that turns
      VERIFIED; every row keeps its name and password. */
  lemma ValidatedRow(s: Store, decrypted: Decryption, k: int)
    requires ValidateUser(s, decrypted).result.Ok?
    requires 0 <= k < |s.users| && s.users[k] == UserByName(s, decrypted.text).value
    ensures var s1 := ValidateUser(s, decrypted).store;
            && |s1.users| == |s.users| && s1.statuses == s.statuses
            && s1.users[k] == s.users[k].(statusId := StatusByName(s, VerifiedName).value.id)
            && forall j :: 0 <= j < |s.users| ==>
                 s1.users[j].username == s.users[j].username && s1.users[j].password == s.users[j].password
  {
  }

  /** Following the link of an UNVERIFIED account `k`, first under its username,
      lets the password it was registered with log in. */
  lemma ValidateThenLogin(s: Store, username: string, password: string, hash: string -> string, k: int)
    requires StatusesReady(s)
    requires 0 <= k < |s.users| && s.users[k].username == username
    requires forall j :: 0 <= j < k ==> s.users[j].username != username
    requires s.users[k].statusId == InitialStatusId && s.users[k].password == hash(password + s.users[k].salt)
    ensures var o := ValidateUser(s, Plain(username));
            && o.result.Ok?
            && VerifyUserAuthentication(o.store, username, password, hash) == Ok(())
  {
    FirstAt(s.users, (v: User) => v.username == username, k);
    VerifiedStatusIsVerified(s);
    var s2 := ValidateUser(s, Plain(username)).store;
    ValidatedRow(s, Plain(username), k);
    FirstAt(s2.users, (w: User) => w.username == username, k);
    FirstAt(s2.users, (w: User) => w.username == username && w.password == hash(password + s.users[k].salt), k);
  }

  /** Register, follow the verification link, log in: the login succeeds. */
  lemma RegisterValidateLogin(s: Store, username: string, password: string, email: string, salt: string, now: int,
                              hash: string -> string, mail: Result<()>)
    requires CreateUser(s, username, password, email, salt, now, hash, mail).result.Ok?
    requires StatusesReady(s)
    ensures var s1 := CreateUser(s, username, password, email, salt, now, hash, mail).store;
            var o := ValidateUser(s1, Plain(username));
            && o.result.Ok?
            && VerifyUserAuthentication(o.store, username, password, hash) == Ok(())
  {
    var s1 := CreateUser(s, username, password, email, salt, now, hash, mail).store;
    Registered(s, username, password, email, salt, now, hash, mail);
    assert StatusesReady(s1);
    ValidateThenLogin(s1, username, password, hash, |s.users|);
  }

  /** A second use of a verification link is refused: the account is no longer UNVERIFIED. */
  lemma ValidateTwiceFails(s: Store, decrypted: Decryption)
    requires ValidateUser(s, decrypted).result.Ok?
    requires UniqueBy(s.statuses, StatusId)
    ensures var s1 := ValidateUser(s, decrypted).store;
            ValidateUser(s1, decrypted) == Abort(s1, BadRequest(OnlyUnverified))
  {
    var name := decrypted.text;
    var byName := (w: User) => w.username == name;
    var k := FirstIndex(s.users, byName);
    var v := StatusByName(s, VerifiedName).value;
    var s1 := ValidateUser(s, decrypted).store;
    ValidatedRow(s, decrypted, k);
    FirstAt(s1.users, byName, k);
    var i :| 0 <= i < |s.statuses| && s.statuses[i] == v;
    FirstOfUniqueKey(s1.statuses, StatusId, v.id, i, (t: Named) => t.id == v.id);
  }

  /** Renaming an account to the name it already has is refused like any taken name. */
  lemma RenameToOwnNameRefused(s: Store, id: int)
    requires UserById(s, id).Some?
    ensures UpdateUser(s, id, UserById(s, id).value.username) == Abort(s, BadRequest(UsernameTaken))
  {
    var u := UserById(s, id).value;
    var i :| 0 <= i < |s.users| && s.users[i] == u;
    assert s.users[i].username == u.username;
  }
}
