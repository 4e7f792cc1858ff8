/**
 * The earlier revision of the user service: the same registration pipeline
 * without validation and without clearing the password, and list, get,
 * update and delete with no authorization at all. The lemmas at the end pin
 * down how it differs from the current service.
 */
module LegacyUserService {
  import opened Wrappers
  import opened Model
  import opened Stores
  import opened ServiceErrors
  import UserService
  import Validation

  function Create(u: User, c: UserService.Credentials, t: UserTable): (r: UserService.Reply<User, Error>)
    // hashing fails: an error and no store call
    ensures c.hash(u.password).None? ==>
      r.result == Err(Wrapped("error generating password hash", HashFailure)) && r.table == t
    // no validation: every payload whose password hashes reaches the store
    ensures c.hash(u.password).Some? ==> r.table.log == t.log + [CreateOp]
    // nothing bounds the names or the email on this path; the user columns do
    ensures c.hash(u.password).Some? ==>
      var stored := UserService.Prepared(u, c, c.hash(u.password).value);
      (r.result.Ok? <==> CreateOp !in t.failing && FitsUserColumns(stored) && !Taken(t, stored, None))
    ensures r.result.Err? ==> r.table.rows == t.rows
    // the reply keeps the hash in its password field
    ensures r.result.Ok? ==>
      && c.hash(u.password).Some?
      && r.result.value == UserService.Prepared(u, c, c.hash(u.password).value).(id := r.result.value.id)
      && r.table.rows == t.rows[r.result.value.id := r.result.value]
  {
    match c.hash(u.password)
    case None => UserService.Reply(Err(Wrapped("error generating password hash", HashFailure)), t)
    case Some(h) =>
      var stored := UserService.Prepared(u, c, h);
      var a := CreateUser(t, stored);
      match a.result
      case Err(e) => UserService.Reply(Err(Wrapped("error creating a new user", StoreFailure(e))), a.state)
      case Ok(id) => UserService.Reply(Ok(stored.(id := id)), a.state)
  }

  function List(limit: int, offset: int, t: UserTable): (r: UserService.Reply<seq<User>, Error>)
    ensures r.table == LogCall(t, ListOp)
    ensures r.result.Ok? <==> Stores.List(t, limit, offset).result.Ok?
    ensures r.result.Ok? ==> r.result.value == Stores.List(t, limit, offset).result.value
  {
    var a := Stores.List(t, limit, offset);
    match a.result
    case Err(e) => UserService.Reply(Err(Wrapped("error listing users", StoreFailure(e))), a.state)
    case Ok(users) => UserService.Reply(Ok(users), a.state)
  }

  function Get(id: int, t: UserTable): (r: UserService.Reply<User, Error>)
    ensures r.table == LogCall(t, GetOp)
    ensures r.result.Ok? <==> GetOp !in t.failing && id in t.rows
    ensures r.result.Ok? ==> r.result.value == t.rows[id]
  {
    var a := Stores.Get(t, id);
    match a.result
    case Err(e) => UserService.Reply(Err(Wrapped("error fetching user", StoreFailure(e))), a.state)
    case Ok(found) => UserService.Reply(Ok(found), a.state)
  }

  function Update(u: User, now: Time, t: UserTable): (r: UserService.Reply<User, Error>)
    // the baseline fetch must succeed before anything is written
    ensures GetOp in t.failing || u.id !in t.rows ==> r.result.Err? && r.table == LogCall(t, GetOp)
    // the fetch succeeds: the stamped record is always written, and the store decides
    ensures GetOp !in t.failing && u.id in t.rows ==>
      && r.table.log == t.log + [GetOp, UpdateOp]
      && (r.result.Ok? <==> UpdateOp !in t.failing && FitsUserColumns(u) && !Taken(t, u, Some(u.id)))
    ensures r.result.Ok? ==>
      && FitsUserColumns(u)
      && r.result.value == u.(updatedAt := now)
      && u.id in t.rows
      && r.table.rows == t.rows[u.id := u.(updatedAt := now, createdAt := t.rows[u.id].createdAt)]
    ensures r.result.Err? ==> r.table.rows == t.rows
  {
    var original := Stores.Get(t, u.id);
    match original.result
    case Err(e) => UserService.Reply(Err(Wrapped("error fetching original user data", StoreFailure(e))), original.state)
    case Ok(_) =>
      var stamped := u.(updatedAt := now);
      var a := UpdateUser(original.state, stamped);
      match a.result
      case Err(e) => UserService.Reply(Err(Wrapped("error updating user data", StoreFailure(e))), a.state)
      case Ok(_) => UserService.Reply(Ok(stamped), a.state)
  }

  function Delete(id: int, t: UserTable): (r: UserService.Reply<(), Error>)
    ensures r.table.log == t.log + [DeleteOp]
    ensures r.result.Ok? <==> DeleteOp !in t.failing
    ensures r.result.Ok? ==> r.table.rows == t.rows - {id}
    ensures r.result.Err? ==> r.table.rows == t.rows
  {
    var a := Stores.Delete(t, id);
    match a.result
    case Err(e) => UserService.Reply(Err(Wrapped("error deleting user", StoreFailure(e))), a.state)
    case Ok(_) => UserService.Reply(Ok(()), a.state)
  }

  // ---------------------------------------------------------------------------
  // How the two revisions differ

  /**
   * On a payload both revisions accept, they store the same row and reply
   * alike, except that the current one clears the password the earlier one
   * returns as the hash.
   */
  lemma {:induction false} RevisionsDifferOnlyInPassword(u: User, c: UserService.Credentials, t: UserTable)
    requires UserService.AcceptablePayload(u)
    ensures UserService.Create(u, c, t).table == Create(u, c, t).table
    ensures UserService.Create(u, c, t).result.Ok? <==> Create(u, c, t).result.Ok?
    ensures Create(u, c, t).result.Ok? ==>
      && UserService.Create(u, c, t).result.value == Create(u, c, t).result.value.(password := "")
      && Create(u, c, t).result.value.password == c.hash(u.password).value
  {
    UserService.CreateChecksMeanAcceptable(u);
  }

  /** A payload the current revision rejects (a blank first name) still reaches the earlier one's store. */
  lemma BlankNameReachesLegacyStore(u: User, c: UserService.Credentials, t: UserTable)
    requires u.firstName == "" && c.hash(u.password).Some?
    ensures UserService.Create(u, c, t).result.Err? && UserService.Create(u, c, t).table == t
    ensures Create(u, c, t).table.log == t.log + [CreateOp]
  {
    UserService.CreateChecksMeanAcceptable(u);
    var es := UserService.CreateChecks(u);
    assert Validation.RuleOutcome(UserService.UserRules, es[0], 0).Some?;
  }

  /**
   * Once the current revision lets a caller through, each operation does
   * what the earlier revision does unconditionally.
   */
  lemma {:induction false} AuthorisedCallsMatchLegacy(key: Option<string>, t: UserTable, limit: int, offset: int, id: int, u: User, now: Time)
    requires key.Some?
    ensures var s := LogCall(t, SearchKeyOp);
      UserService.AdminCaller(key, t) ==>
        && UserService.List(key, limit, offset, t).result == List(limit, offset, s).result
        && UserService.Get(key, id, t).result == Get(id, s).result
    ensures var s := LogCall(t, SearchKeyOp);
      UserService.PermittedCaller(key, t, UserService.Modify, u.id) ==>
        && UserService.Update(key, u, now, t).result == Update(u, now, s).result
        && UserService.Update(key, u, now, t).table == Update(u, now, s).table
    ensures var s := LogCall(t, SearchKeyOp);
      UserService.PermittedCaller(key, t, UserService.Remove, id) ==>
        && UserService.Delete(key, id, t).result == Delete(id, s).result
        && UserService.Delete(key, id, t).table == Delete(id, s).table
  {
  }
}
