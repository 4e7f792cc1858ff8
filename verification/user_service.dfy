/**
 * The user service: registration (validate, coerce the role, hash, issue a
 * key, persist, clear the password) and the list, get, update and delete
 * operations, each gated by the role of the caller the request's api key
 * resolves to and by whether the caller targets their own id.
 */
module UserService {
  import opened Wrappers
  import opened Model
  import opened Validation
  import opened Stores
  import opened ServiceErrors

  /** The rule table registration validates with. */
  const UserRules: Rules := map[
    "require" := Required,
    "length" := Length(50),
    "email" := Email,
    "password" := Password(8)]

  /** The fields registration checks, in one iteration order of the source's map. */
  function CreateChecks(u: User): seq<Entry> {
    [ ("firstName", Check(Str(u.firstName), ["require", "length"])),
      ("surename", Check(Str(u.surname), ["require", "length"])),
      ("email", Check(Str(u.email), ["require", "email", "length"])),
      ("password", Check(Str(u.password), ["require", "password"])) ]
  }

  /** What registration demands of a payload, field by field. */
  predicate AcceptablePayload(u: User) {
    && u.firstName != "" && ByteLen(u.firstName) <= 50
    && u.surname != "" && ByteLen(u.surname) <= 50
    && u.email != "" && MatchesEmailPattern(u.email) && ByteLen(u.email) <= 50
    && u.password != "" && StrongPassword(u.password, 8)
  }

  /** The rule table and the checks say exactly what `AcceptablePayload` says. */
  lemma CreateChecksMeanAcceptable(u: User)
    ensures Covered(UserRules, CreateChecks(u))
    ensures Validate(UserRules, CreateChecks(u)) == [] <==> AcceptablePayload(u)
  {
    var es := CreateChecks(u);
    assert Covered(UserRules, es);
    if Validate(UserRules, es) == [] {
      assert RuleOutcome(UserRules, es[0], 0).None? && RuleOutcome(UserRules, es[0], 1).None?;
      assert RuleOutcome(UserRules, es[1], 0).None? && RuleOutcome(UserRules, es[1], 1).None?;
      assert RuleOutcome(UserRules, es[2], 0).None? && RuleOutcome(UserRules, es[2], 1).None?;
      assert RuleOutcome(UserRules, es[2], 2).None?;
      assert RuleOutcome(UserRules, es[3], 0).None? && RuleOutcome(UserRules, es[3], 1).None?;
    }
  }

  /** The role is kept only when it is exactly "admin"; everything else becomes "user". */
  function CoerceRole(role: string): (r: string)
    ensures r == Admin <==> role == Admin
    ensures r == Admin || r == BaseUser
  {
    if role != Admin then BaseUser else role
  }

  /** The coerced role always passes the role rule. */
  lemma CoercedRolePassesRoleRule(role: string)
    ensures Apply(Role, "role", Str(CoerceRole(role))).None?
  {
    RoleAcceptsOnlyKnownRoles("role", Str(CoerceRole(role)));
  }

  /** The collaborators registration cannot see: bcrypt (None on failure), uuid.NewString and the clock. */
  datatype Credentials = Credentials(hash: string -> Option<string>, freshKey: string, now: Time)

  /** A service reply together with the user table after the call. */
  datatype Reply<T, E> = Reply(result: Result<T, E>, table: UserTable)

  /** The record registration hands to the store. */
  function Prepared(u: User, c: Credentials, hash: string): User {
    u.(role := CoerceRole(u.role), password := hash, apiKey := c.freshKey, createdAt := c.now)
  }

  function Create(u: User, c: Credentials, t: UserTable): (r: Reply<User, seq<Error>>)
    ensures Covered(UserRules, CreateChecks(u))
    // any failing check: the whole error list, and no store call
    ensures !AcceptablePayload(u) ==>
      r.result == Err(AsInvalid(Validate(UserRules, CreateChecks(u)))) && r.table == t
    // hashing fails: one error, and no store call
    ensures AcceptablePayload(u) && c.hash(u.password).None? ==>
      r.result == Err([Wrapped("error generating password hash", HashFailure)]) && r.table == t
    // the store fails: one error, no row added
    ensures r.result.Err? ==> |r.result.error| >= 1 && r.table.rows == t.rows
    ensures r.result.Err? && AcceptablePayload(u) && c.hash(u.password).Some? ==>
      |r.result.error| == 1 && r.result.error[0].Wrapped?
    // success: the stored row holds the hash and the fresh key; the reply hides the hash
    ensures r.result.Ok? ==>
      && AcceptablePayload(u)
      && c.hash(u.password).Some?
      && var v := r.result.value;
      && v == Prepared(u, c, "").(id := v.id)
      && (ValidUsers(t) ==> v.id !in t.rows)
      && r.table.rows == t.rows[v.id := v.(password := c.hash(u.password).value)]
      && r.table.log == t.log + [CreateOp]
  {
    CreateChecksMeanAcceptable(u);
    var errs := Validate(UserRules, CreateChecks(u));
    if errs != [] then Reply(Err(AsInvalid(errs)), t)
    else
      match c.hash(u.password)
      case None => Reply(Err([Wrapped("error generating password hash", HashFailure)]), t)
      case Some(h) =>
        var stored := Prepared(u, c, h);
        var a := CreateUser(t, stored);
        match a.result
        case Err(e) => Reply(Err([Wrapped("error creating a new user", StoreFailure(e))]), a.state)
        case Ok(id) => Reply(Ok(stored.(id := id, password := "")), a.state)
  }

  /** A registered user is "admin" exactly when the payload asked for "admin", and "user" otherwise. */
  lemma CreateRoleIsAdminIffRequested(u: User, c: Credentials, t: UserTable)
    requires Create(u, c, t).result.Ok?
    ensures Create(u, c, t).result.value.role == Admin <==> u.role == Admin
    ensures u.role != Admin ==> Create(u, c, t).result.value.role == BaseUser
    ensures Create(u, c, t).result.value.password == ""
  {
  }

  /**
   * Registration's byte bounds and the role coercion keep every row it
   * inserts within the user table's VARCHAR columns.
   */
  lemma AcceptablePayloadFitsColumns(u: User, c: Credentials, hash: string)
    requires AcceptablePayload(u)
    ensures FitsUserColumns(Prepared(u, c, hash))
  {
    Validation.ByteLenBounds(u.firstName);
    Validation.ByteLenBounds(u.surname);
    Validation.ByteLenBounds(u.email);
  }

  /** Registration succeeds exactly when the payload is acceptable, the hash works and the store takes the row. */
  lemma CreateSucceedsWhen(u: User, c: Credentials, t: UserTable)
    ensures Create(u, c, t).result.Ok? <==>
      && AcceptablePayload(u)
      && c.hash(u.password).Some?
      && CreateOp !in t.failing
      && !Taken(t, Prepared(u, c, c.hash(u.password).value), None)
  {
    if AcceptablePayload(u) && c.hash(u.password).Some? {
      AcceptablePayloadFitsColumns(u, c, c.hash(u.password).value);
    }
  }

  // ---------------------------------------------------------------------------
  // Identity and the access policy

  /** The caller an api key from the request context resolves to, if any. */
  function Caller(key: Option<string>, t: UserTable): Option<User> {
    if key.None? then None
    else
      var a := SearchApiKey(t, key.value);
      if a.result.Ok? then Some(a.result.value) else None
  }

  /** Reads the key from the request context and looks its owner up. */
  function ResolveCaller(key: Option<string>, t: UserTable): (r: Reply<User, Error>)
    ensures key.None? ==> r.result == Err(InvalidApiKey) && r.table == t
    ensures key.Some? ==> r.table == LogCall(t, SearchKeyOp)
    ensures r.result.Ok? <==> Caller(key, t).Some?
    ensures r.result.Ok? ==> r.result.value == Caller(key, t).value
    ensures r.result.Err? && key.Some? ==> r.result.error.Wrapped?
  {
    match key
    case None => Reply(Err(InvalidApiKey), t)
    case Some(k) =>
      var a := SearchApiKey(t, k);
      match a.result
      case Err(e) => Reply(Err(Wrapped("error searching user by api key", StoreFailure(e))), a.state)
      case Ok(u) => Reply(Ok(u), a.state)
  }

  datatype Action = ListAll | Fetch | Modify | Remove

  /** The decision table: listing and fetching are admin-only; modifying and removing admit the admin or the target themself. */
  predicate Permits(action: Action, callerRole: string, isSelf: bool) {
    match action
    case ListAll => callerRole == Admin
    case Fetch => callerRole == Admin
    case Modify => callerRole == Admin || isSelf
    case Remove => callerRole == Admin || isSelf
  }

  /** The store calls resolving the caller makes: one key search when a key is present. */
  function LookupCalls(key: Option<string>): seq<Op> {
    if key.None? then [] else [SearchKeyOp]
  }

  predicate AdminCaller(key: Option<string>, t: UserTable) {
    Caller(key, t).Some? && Caller(key, t).value.role == Admin
  }

  /** The key resolves to a caller the decision table lets act on `target`. */
  predicate PermittedCaller(key: Option<string>, t: UserTable, action: Action, target: int) {
    Caller(key, t).Some? && Permits(action, Caller(key, t).value.role, Caller(key, t).value.id == target)
  }

  function List(key: Option<string>, limit: int, offset: int, t: UserTable): (r: Reply<seq<User>, Error>)
    ensures r.table.rows == t.rows
    ensures r.result.Ok? ==> Caller(key, t).Some? && Caller(key, t).value.role == Admin
    ensures r.result.Ok? ==> forall x | x in r.result.value :: x in t.rows.Values
    ensures r.table.log == t.log + LookupCalls(key) + (if AdminCaller(key, t) then [ListOp] else [])
  {
    var c := ResolveCaller(key, t);
    match c.result
    case Err(e) => Reply(Err(e), c.table)
    case Ok(caller) =>
      if caller.role != Admin then Reply(Err(NotAuthorised), c.table)
      else
        var a := Stores.List(c.table, limit, offset);
        match a.result
        case Err(e) => Reply(Err(Wrapped("error listing users", StoreFailure(e))), a.state)
        case Ok(users) => Reply(Ok(users), a.state)
  }

  function Get(key: Option<string>, id: int, t: UserTable): (r: Reply<User, Error>)
    ensures r.table.rows == t.rows
    ensures r.result.Ok? ==> Caller(key, t).Some? && Caller(key, t).value.role == Admin
    ensures r.result.Ok? ==> id in t.rows && r.result.value == t.rows[id]
    ensures r.table.log == t.log + LookupCalls(key) + (if AdminCaller(key, t) then [GetOp] else [])
  {
    var c := ResolveCaller(key, t);
    match c.result
    case Err(e) => Reply(Err(e), c.table)
    case Ok(caller) =>
      if caller.role != Admin then Reply(Err(NotAuthorised), c.table)
      else
        var a := Stores.Get(c.table, id);
        match a.result
        case Err(e) => Reply(Err(Wrapped("error fetching user", StoreFailure(e))), a.state)
        case Ok(found) => Reply(Ok(found), a.state)
  }

  /**
   * Update does no merge: once the baseline fetch succeeds its result is
   * dropped, and the incoming record is persisted with only its update time
   * replaced.
   */
  function Update(key: Option<string>, u: User, now: Time, t: UserTable): (r: Reply<User, Error>)
    // a permitted caller whose fetch succeeds always writes, and the store decides
    ensures PermittedCaller(key, t, Modify, u.id) && GetOp !in t.failing && u.id in t.rows ==>
      (r.result.Ok? <==> UpdateOp !in t.failing && FitsUserColumns(u) && !Taken(t, u, Some(u.id)))
    ensures r.result.Ok? ==>
      && FitsUserColumns(u)
      && Caller(key, t).Some?
      && Permits(Modify, Caller(key, t).value.role, Caller(key, t).value.id == u.id)
      && r.result.value == u.(updatedAt := now)
      && u.id in t.rows
      && r.table.rows == t.rows[u.id := u.(updatedAt := now, createdAt := t.rows[u.id].createdAt)]
    ensures r.result.Err? ==> r.table.rows == t.rows
    ensures r.table.log == t.log + LookupCalls(key) +
      if !PermittedCaller(key, t, Modify, u.id) then []
      else if GetOp in t.failing || u.id !in t.rows then [GetOp]
      else [GetOp, UpdateOp]
  {
    var c := ResolveCaller(key, t);
    match c.result
    case Err(e) => Reply(Err(e), c.table)
    case Ok(caller) =>
      if caller.role != Admin && caller.id != u.id then Reply(Err(NotAuthorised), c.table)
      else
        var original := Stores.Get(c.table, u.id);
        match original.result
        case Err(e) => Reply(Err(Wrapped("error fetching original user data", StoreFailure(e))), original.state)
        case Ok(_) =>
          var stamped := u.(updatedAt := now);
          var a := UpdateUser(original.state, stamped);
          match a.result
          case Err(e) => Reply(Err(Wrapped("error updating user data", StoreFailure(e))), a.state)
          case Ok(_) => Reply(Ok(stamped), a.state)
  }

  function Delete(key: Option<string>, id: int, t: UserTable): (r: Reply<(), Error>)
    ensures r.result.Ok? ==>
      && Caller(key, t).Some?
      && Permits(Remove, Caller(key, t).value.role, Caller(key, t).value.id == id)
      && r.table.rows == t.rows - {id}
    ensures r.result.Err? ==> r.table.rows == t.rows
    ensures r.table.log == t.log + LookupCalls(key) + (if PermittedCaller(key, t, Remove, id) then [DeleteOp] else [])
  {
    var c := ResolveCaller(key, t);
    match c.result
    case Err(e) => Reply(Err(e), c.table)
    case Ok(caller) =>
      if caller.role != Admin && caller.id != id then Reply(Err(NotAuthorised), c.table)
      else
        var a := Stores.Delete(c.table, id);
        match a.result
        case Err(e) => Reply(Err(Wrapped("error deleting user", StoreFailure(e))), a.state)
        case Ok(_) => Reply(Ok(()), a.state)
  }

  /**
   * For a caller the key resolves to, each operation refuses with "user is
   * not authorised" exactly when the decision table denies it.
   */
  lemma {:induction false} ServiceFollowsPolicy(key: Option<string>, t: UserTable, caller: User, limit: int, offset: int, id: int, u: User, now: Time)
    requires Caller(key, t) == Some(caller)
    ensures List(key, limit, offset, t).result == Err(NotAuthorised) <==> !Permits(ListAll, caller.role, true)
    ensures Get(key, id, t).result == Err(NotAuthorised) <==> !Permits(Fetch, caller.role, caller.id == id)
    ensures Update(key, u, now, t).result == Err(NotAuthorised) <==> !Permits(Modify, caller.role, caller.id == u.id)
    ensures Delete(key, id, t).result == Err(NotAuthorised) <==> !Permits(Remove, caller.role, caller.id == id)
  {
  }

  /** Without a resolvable key nothing but the key lookup reaches the store. */
  lemma UnresolvedCallerTouchesOnlyLookup(key: Option<string>, t: UserTable, limit: int, offset: int, id: int, u: User, now: Time)
    requires Caller(key, t).None?
    ensures List(key, limit, offset, t).result.Err? && List(key, limit, offset, t).table.log == ResolveCaller(key, t).table.log
    ensures Get(key, id, t).result.Err? && Get(key, id, t).table.log == ResolveCaller(key, t).table.log
    ensures Update(key, u, now, t).result.Err? && Update(key, u, now, t).table.log == ResolveCaller(key, t).table.log
    ensures Delete(key, id, t).result.Err? && Delete(key, id, t).table.log == ResolveCaller(key, t).table.log
    ensures key.None? ==> ResolveCaller(key, t).table == t
  {
  }

  /** A non-admin is refused even when fetching their own record. */
  lemma NonAdminCannotFetchSelf(key: Option<string>, t: UserTable, caller: User)
    requires Caller(key, t) == Some(caller) && caller.role != Admin
    ensures Get(key, caller.id, t).result == Err(NotAuthorised)
    ensures Get(key, caller.id, t).table.log == t.log + [SearchKeyOp]
  {
  }

  /**
   * Because Update copies the incoming role unchecked, a non-admin who
   * updates their own record with role "admin" stores "admin"; only the
   * column widths bound what can be stored.
   */
  lemma SelfUpdateCanSetAnyRole(key: Option<string>, t: UserTable, caller: User, u: User, now: Time)
    requires Caller(key, t) == Some(caller) && caller.role != Admin
    requires u.id == caller.id && caller.id in t.rows && FitsUserColumns(u)
    requires GetOp !in t.failing && UpdateOp !in t.failing && !Taken(t, u, Some(u.id))
    ensures Update(key, u, now, t).result.Ok?
    ensures Update(key, u, now, t).table.rows[caller.id].role == u.role
  {
    var c := ResolveCaller(key, t);
    assert c.result == Ok(caller);
    var g := Stores.Get(c.table, u.id);
    assert g.result.Ok?;
    var stamped := u.(updatedAt := now);
    assert !Taken(g.state, stamped, Some(u.id)) by {
      forall id | id in g.state.rows && Some(id) != Some(u.id)
        ensures !SharesUniqueColumn(g.state.rows[id], stamped)
      {
        assert !SharesUniqueColumn(t.rows[id], u);
      }
    }
  }

  /** The registration example: a strong payload without a role becomes a "user" with a fresh key and no password. */
  lemma RegistrationExample(c: Credentials, t: UserTable)
    requires c.hash("Str0ng!Pass").Some?
    requires CreateOp !in t.failing && t.rows == map[]
    ensures var r := Create(User(0, "Ada", "Lovelace", "ada@x.com", "Str0ng!Pass", "", "", 0, 0), c, t);
      && r.result.Ok?
      && r.result.value.role == BaseUser
      && r.result.value.apiKey == c.freshKey
      && r.result.value.password == ""
      && r.result.value.createdAt == c.now
  {
    var u := User(0, "Ada", "Lovelace", "ada@x.com", "Str0ng!Pass", "", "", 0, 0);
    AdaIsAcceptable(u);
    CreateSucceedsWhen(u, c, t);
  }

  lemma AdaIsAcceptable(u: User)
    requires u == User(0, "Ada", "Lovelace", "ada@x.com", "Str0ng!Pass", "", "", 0, 0)
    ensures AcceptablePayload(u)
  {
    AdaNamesFit();
    AdaEmailMatches();
    AdaPasswordIsStrong();
  }

  lemma AdaNamesFit()
    ensures ByteLen("Ada") <= 50 && ByteLen("Lovelace") <= 50 && ByteLen("ada@x.com") <= 50
  {
    ByteLenBounds("Ada");
    ByteLenBounds("Lovelace");
    ByteLenBounds("ada@x.com");
  }

  lemma AdaPasswordIsStrong()
    ensures StrongPassword("Str0ng!Pass", 8)
  {
    PasswordExamples();
  }

  lemma AdaEmailMatches()
    ensures MatchesEmailPattern("ada@x.com")
  {
    var s := "ada@x.com";
    assert LabelEnd(s, 9) == 9;
    assert LabelEnd(s, 6) == 9;
    assert LabelEnd(s, 5) == 5;
    assert LabelEnd(s, 4) == 5;
    assert TldAt(s, 6);
    assert DomainAt(s, 4);
    assert EmailAt(s, 3);
  }
}
