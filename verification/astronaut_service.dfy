/**
 * The astronaut service: create, update and delete are open only to a
 * request identity with the admin role; list and get consult no identity.
 * Update reconciles the incoming record with the stored one through
 * `CompareAstronautData`, whose quirks are pinned down below.
 */
module AstronautService {
  import opened Wrappers
  import opened Model
  import opened Validation
  import opened Stores
  import opened ServiceErrors

  /** The status, date and gender rules; their definitions are not part of this model. */
  datatype FieldFormats = FieldFormats(status: Value -> bool, date: Value -> bool, gender: Value -> bool)

  function AstronautRules(f: FieldFormats): Rules {
    map[
      "require" := Required,
      "status" := Custom("status", f.status),
      "date" := Custom("date", f.date),
      "gender" := Custom("gender", f.gender)]
  }

  /** The five fields creation checks, in one iteration order of the source's map. */
  function CreateChecks(a: Astronaut): seq<Entry> {
    [ ("name", Check(Str(a.name), ["require"])),
      ("status", Check(Str(a.status), ["status"])),
      ("birth date", Check(Str(a.birthDate), ["date"])),
      ("birth place", Check(Str(a.birthPlace), ["require"])),
      ("gender", Check(Str(a.gender), ["gender"])) ]
  }

  predicate AcceptableRecord(f: FieldFormats, a: Astronaut) {
    && a.name != ""
    && f.status(Str(a.status))
    && f.date(Str(a.birthDate))
    && a.birthPlace != ""
    && f.gender(Str(a.gender))
  }

  /** Exactly one error per failing check: the validation list has one entry per rejected field. */
  lemma CreateChecksMeanAcceptable(f: FieldFormats, a: Astronaut)
    ensures Covered(AstronautRules(f), CreateChecks(a))
    ensures Validate(AstronautRules(f), CreateChecks(a)) == [] <==> AcceptableRecord(f, a)
    ensures a.name == "" ==> FieldError("name", Blank) in Validate(AstronautRules(f), CreateChecks(a))
  {
    var es := CreateChecks(a);
    var rules := AstronautRules(f);
    assert Covered(rules, es);
    if Validate(rules, es) == [] {
      assert RuleOutcome(rules, es[0], 0).None?;
      assert RuleOutcome(rules, es[1], 0).None?;
      assert RuleOutcome(rules, es[2], 0).None?;
      assert RuleOutcome(rules, es[3], 0).None?;
      assert RuleOutcome(rules, es[4], 0).None?;
    }
    if a.name == "" {
      ValidateReportsExactlyFailures(rules, es, FieldError("name", Blank));
      assert RuleOutcome(rules, es[0], 0) == Some(FieldError("name", Blank));
    }
  }

  /** A service reply together with the astronaut table after the call. */
  datatype Reply<T, E> = Reply(result: Result<T, E>, table: AstronautTable)

  /** The request identity is present and has the admin role. */
  predicate IsAdminIdentity(requestUser: Option<User>) {
    requestUser.Some? && requestUser.value.role == Admin
  }

  function Create(requestUser: Option<User>, a: Astronaut, f: FieldFormats, t: AstronautTable): (r: Reply<Astronaut, seq<Error>>)
    ensures requestUser.None? ==> r == Reply(Err([InvalidRequestUser]), t)
    ensures requestUser.Some? && requestUser.value.role != Admin ==> r == Reply(Err([NotAuthorised]), t)
    ensures Covered(AstronautRules(f), CreateChecks(a))
    ensures IsAdminIdentity(requestUser) && !AcceptableRecord(f, a) ==>
      r == Reply(Err(AsInvalid(Validate(AstronautRules(f), CreateChecks(a)))), t)
    // an admin's acceptable record always reaches the store, which decides
    ensures IsAdminIdentity(requestUser) && AcceptableRecord(f, a) ==>
      && r.table.log == t.log + [CreateOp]
      && r.table.nextId == (if ReachesServer(t.failing, a) then t.nextId + 1 else t.nextId)
      && (r.result.Ok? <==> CreateOp !in t.failing && FitsColumns(a))
    ensures r.result.Ok? ==>
      && IsAdminIdentity(requestUser)
      && AcceptableRecord(f, a)
      && r.result.value == a.(id := t.nextId)
      && r.table.rows == t.rows[t.nextId := Persisted(r.result.value)]
    ensures r.result.Err? ==> r.table.rows == t.rows && 1 <= |r.result.error|
  {
    CreateChecksMeanAcceptable(f, a);
    match requestUser
    case None => Reply(Err([InvalidRequestUser]), t)
    case Some(caller) =>
      if caller.role != Admin then Reply(Err([NotAuthorised]), t)
      else
        var errs := Validate(AstronautRules(f), CreateChecks(a));
        if errs != [] then Reply(Err(AsInvalid(errs)), t)
        else
          var c := CreateAstronaut(t, a);
          match c.result
          case Err(e) => Reply(Err([Wrapped("error creating new astronaut", StoreFailure(e))]), c.state)
          case Ok(created) => Reply(Ok(created), c.state)
  }

  function List(limit: int, offset: int, t: AstronautTable): (r: Reply<seq<Astronaut>, Error>)
    ensures r.table == LogCall(t, ListOp)
    ensures r.result.Ok? <==> Stores.List(t, limit, offset).result.Ok?
    ensures r.result.Ok? <==> ListOp !in t.failing && limit >= 0 && offset >= 0
    // the store's page is handed back unchanged
    ensures r.result.Ok? ==> r.result.value == Stores.List(t, limit, offset).result.value
    ensures r.result.Ok? ==> r.result.value == Page(Listing(t.rows, 1, t.nextId), limit, offset).value
    ensures r.result.Ok? ==> forall x | x in r.result.value :: x in t.rows.Values
  {
    var a := Stores.List(t, limit, offset);
    match a.result
    case Err(e) => Reply(Err(Wrapped("error listing astronauts", StoreFailure(e))), a.state)
    case Ok(xs) => Reply(Ok(xs), a.state)
  }

  function Get(id: int, t: AstronautTable): (r: Reply<Astronaut, Error>)
    ensures r.table == LogCall(t, GetOp)
    ensures r.result.Ok? <==> GetOp !in t.failing && id in t.rows
    ensures r.result.Ok? ==> r.result.value == t.rows[id]
  {
    var a := Stores.Get(t, id);
    match a.result
    case Err(e) => Reply(Err(Wrapped("error fetching astronaut data", StoreFailure(e))), a.state)
    case Ok(x) => Reply(Ok(x), a.state)
  }

  // ---------------------------------------------------------------------------
  // Merge

  /**
   * The merge of a partial update into a stored record, step by step as the
   * source writes it. Each step reads the record the previous steps produced.
   */
  function CompareAstronautData(stored: Astronaut, incoming: Astronaut): (m: Astronaut)
    ensures m.name == (if incoming.name != "" then incoming.name else stored.name)
    ensures m.year == (if incoming.year != 0 then incoming.year else stored.year)
    ensures m.group == (if incoming.group != 0 then incoming.group else stored.group)
    ensures m.gender == (if incoming.gender != "" then incoming.gender else stored.gender)
    // an incoming birth date never lands; with no incoming status it blanks the status
    ensures m.status == (if incoming.status != "" then incoming.status else if incoming.birthDate != "" then "" else stored.status)
    // the birth place test compares the incoming status with the stored birth place
    ensures m.birthPlace == (if incoming.birthPlace != "" && incoming.status != stored.birthPlace then incoming.birthPlace else stored.birthPlace)
    // every other field, birth date included, is the stored one
    ensures m == stored.(name := m.name, year := m.year, group := m.group, status := m.status,
                      birthPlace := m.birthPlace, gender := m.gender)
  {
    var s3 := MergeCounts(MergeName(stored, incoming), incoming);
    var s5 := MergeStatus(s3, incoming);
    var s6 := MergeBirthPlace(s5, incoming);
    if incoming.gender != "" && incoming.gender != s6.gender then s6.(gender := incoming.gender) else s6
  }

  function MergeName(s: Astronaut, incoming: Astronaut): (r: Astronaut)
    ensures r == s.(name := if incoming.name != "" then incoming.name else s.name)
  {
    if incoming.name != "" && incoming.name != s.name then s.(name := incoming.name) else s
  }

  /** The year and group steps. */
  function MergeCounts(s: Astronaut, incoming: Astronaut): (r: Astronaut)
    ensures r == s.(year := if incoming.year != 0 then incoming.year else s.year,
                    group := if incoming.group != 0 then incoming.group else s.group)
  {
    var s2 := if incoming.year != 0 && incoming.year != s.year then s.(year := incoming.year) else s;
    if incoming.group != 0 && incoming.group != s2.group then s2.(group := incoming.group) else s2
  }

  /** The status step and the birth-date step, which also writes the status. */
  function MergeStatus(s: Astronaut, incoming: Astronaut): (r: Astronaut)
    ensures r == s.(status := if incoming.status != "" then incoming.status
                              else if incoming.birthDate != "" then "" else s.status)
  {
    var s4 := if incoming.status != "" && incoming.status != s.status then s.(status := incoming.status) else s;
    if incoming.birthDate != "" && incoming.status != s4.status then s4.(status := incoming.status) else s4
  }

  /** The birth-place step, whose test reads the incoming status. */
  function MergeBirthPlace(s: Astronaut, incoming: Astronaut): (r: Astronaut)
    ensures r == s.(birthPlace := if incoming.birthPlace != "" && incoming.status != s.birthPlace
                                  then incoming.birthPlace else s.birthPlace)
  {
    if incoming.birthPlace != "" && incoming.status != s.birthPlace then s.(birthPlace := incoming.birthPlace) else s
  }

  /** An update that carries nothing in the merged fields. */
  predicate EmptyPatch(p: Astronaut) {
    p.name == "" && p.year == 0 && p.group == 0 && p.status == "" &&
    p.birthDate == "" && p.birthPlace == "" && p.gender == ""
  }

  /** An empty update returns the stored record unchanged. */
  lemma EmptyPatchKeepsRecord(stored: Astronaut, p: Astronaut)
    requires EmptyPatch(p)
    ensures CompareAstronautData(stored, p) == stored
  {
  }

  /** Applying the same update twice is applying it once. */
  lemma MergeIsIdempotent(stored: Astronaut, p: Astronaut)
    ensures CompareAstronautData(CompareAstronautData(stored, p), p) == CompareAstronautData(stored, p)
  {
    var m := CompareAstronautData(stored, p);
    var m2 := CompareAstronautData(m, p);
    assert m2.birthPlace == m.birthPlace;
    assert m2 == m;
  }

  /** Finding: a birth date sent without a status wipes the stored status and is itself dropped. */
  lemma BirthDateBlanksStatus(stored: Astronaut, p: Astronaut)
    requires stored.status == "active" && EmptyPatch(p.(birthDate := ""))
    requires p.birthDate == "1950-01-01" && stored.birthDate != p.birthDate
    ensures CompareAstronautData(stored, p).status == ""
    ensures CompareAstronautData(stored, p).birthDate != p.birthDate
  {
  }

  /** Finding: with no stored birth place and no incoming status, an incoming birth place is dropped. */
  lemma BirthPlaceIgnoredWhenStoredIsBlank(stored: Astronaut, p: Astronaut)
    requires stored.birthPlace == "" && EmptyPatch(p.(birthPlace := ""))
    requires p.birthPlace == "houston, tx"
    ensures CompareAstronautData(stored, p).birthPlace == ""
  {
  }

  /**
   * The merge the field-by-field steps evidently mean: every merged field,
   * birth date included, takes the incoming value exactly when it is
   * non-empty (non-zero), and keeps the stored one otherwise.
   */
  function MergeIntended(stored: Astronaut, incoming: Astronaut): (m: Astronaut)
    ensures incoming.name != "" ==> m.name == incoming.name
    ensures incoming.year != 0 ==> m.year == incoming.year
    ensures incoming.group != 0 ==> m.group == incoming.group
    ensures incoming.status != "" ==> m.status == incoming.status
    ensures incoming.birthDate != "" ==> m.birthDate == incoming.birthDate
    ensures incoming.birthPlace != "" ==> m.birthPlace == incoming.birthPlace
    ensures incoming.gender != "" ==> m.gender == incoming.gender
    // a field the update leaves empty keeps its stored value
    ensures incoming.name == "" ==> m.name == stored.name
    ensures incoming.year == 0 ==> m.year == stored.year
    ensures incoming.group == 0 ==> m.group == stored.group
    ensures incoming.status == "" ==> m.status == stored.status
    ensures incoming.birthDate == "" ==> m.birthDate == stored.birthDate
    ensures incoming.birthPlace == "" ==> m.birthPlace == stored.birthPlace
    ensures incoming.gender == "" ==> m.gender == stored.gender
    ensures EmptyPatch(incoming) ==> m == stored
    ensures m.(name := stored.name, year := stored.year, group := stored.group, status := stored.status,
               birthDate := stored.birthDate, birthPlace := stored.birthPlace, gender := stored.gender) == stored
  {
    stored.(
      name := if incoming.name != "" then incoming.name else stored.name,
      year := if incoming.year != 0 then incoming.year else stored.year,
      group := if incoming.group != 0 then incoming.group else stored.group,
      status := if incoming.status != "" then incoming.status else stored.status,
      birthDate := if incoming.birthDate != "" then incoming.birthDate else stored.birthDate,
      birthPlace := if incoming.birthPlace != "" then incoming.birthPlace else stored.birthPlace,
      gender := if incoming.gender != "" then incoming.gender else stored.gender)
  }

  lemma MergeIntendedIsIdempotent(stored: Astronaut, p: Astronaut)
    ensures MergeIntended(MergeIntended(stored, p), p) == MergeIntended(stored, p)
  {
  }

  /**
   * The two merges agree whenever the update carries no birth date and its
   * birth place, if any, is not shadowed by the status quirk.
   */
  lemma MergesAgreeAwayFromTheQuirks(stored: Astronaut, p: Astronaut)
    requires p.birthDate == ""
    requires p.birthPlace == "" || p.status != stored.birthPlace
    ensures CompareAstronautData(stored, p) == MergeIntended(stored, p)
  {
  }

  // ---------------------------------------------------------------------------
  // Update and delete

  function Update(requestUser: Option<User>, a: Astronaut, t: AstronautTable): (r: Reply<Astronaut, Error>)
    ensures requestUser.None? ==> r == Reply(Err(InvalidRequestUser), t)
    ensures requestUser.Some? && requestUser.value.role != Admin ==> r == Reply(Err(NotAuthorised), t)
    // the baseline fetch fails: nothing is written
    ensures IsAdminIdentity(requestUser) && (GetOp in t.failing || a.id !in t.rows) ==>
      r.result.Err? && r.table == LogCall(t, GetOp)
    // the fetch succeeds: the merged record is always written, and the store decides
    ensures IsAdminIdentity(requestUser) && GetOp !in t.failing && a.id in t.rows ==>
      && r.table.log == t.log + [GetOp, UpdateOp]
      && (ValidAstronauts(t) ==>
            (r.result.Ok? <==> UpdateOp !in t.failing && FitsColumns(CompareAstronautData(t.rows[a.id], a))))
    // success: the merged record is both stored and returned
    ensures r.result.Ok? ==>
      && IsAdminIdentity(requestUser)
      && a.id in t.rows
      && r.result.value == CompareAstronautData(t.rows[a.id], a)
      && (ValidAstronauts(t) ==> r.table.rows == t.rows[a.id := Persisted(r.result.value)])
      && r.table.log == t.log + [GetOp, UpdateOp]
    ensures r.result.Err? ==> r.table.rows == t.rows
  {
    match requestUser
    case None => Reply(Err(InvalidRequestUser), t)
    case Some(caller) =>
      if caller.role != Admin then Reply(Err(NotAuthorised), t)
      else
        var original := Stores.Get(t, a.id);
        match original.result
        case Err(e) => Reply(Err(Wrapped("error fetching original astronaut data", StoreFailure(e))), original.state)
        case Ok(stored) =>
          var merged := CompareAstronautData(stored, a);
          var w := UpdateAstronaut(original.state, merged);
          match w.result
          case Err(e) => Reply(Err(Wrapped("error updating astronaut data", StoreFailure(e))), w.state)
          case Ok(_) => Reply(Ok(merged), w.state)
  }

  /**
   * The update pipeline with the evidently intended merge in place of the
   * step-by-step one: same authorization, same baseline fetch, same store call.
   */
  function UpdateIntended(requestUser: Option<User>, a: Astronaut, t: AstronautTable): (r: Reply<Astronaut, Error>)
    ensures !IsAdminIdentity(requestUser) ==> r.result.Err? && r.table == t
    ensures IsAdminIdentity(requestUser) && (GetOp in t.failing || a.id !in t.rows) ==>
      r.result.Err? && r.table == LogCall(t, GetOp)
    // the fetch succeeds: the merged record is always written, and the store decides
    ensures IsAdminIdentity(requestUser) && GetOp !in t.failing && a.id in t.rows ==>
      && r.table.log == t.log + [GetOp, UpdateOp]
      && (ValidAstronauts(t) ==>
            (r.result.Ok? <==> UpdateOp !in t.failing && FitsColumns(MergeIntended(t.rows[a.id], a))))
    ensures r.result.Ok? ==>
      && a.id in t.rows
      && r.result.value == MergeIntended(t.rows[a.id], a)
      // an incoming birth date lands, and a missing status never blanks the stored one
      && (a.birthDate != "" ==> r.result.value.birthDate == a.birthDate)
      && (a.status == "" ==> r.result.value.status == t.rows[a.id].status)
      && (a.birthPlace != "" ==> r.result.value.birthPlace == a.birthPlace)
      && (ValidAstronauts(t) ==> r.table.rows == t.rows[a.id := Persisted(r.result.value)])
    ensures r.result.Err? ==> r.table.rows == t.rows
  {
    match requestUser
    case None => Reply(Err(InvalidRequestUser), t)
    case Some(caller) =>
      if caller.role != Admin then Reply(Err(NotAuthorised), t)
      else
        var original := Stores.Get(t, a.id);
        match original.result
        case Err(e) => Reply(Err(Wrapped("error fetching original astronaut data", StoreFailure(e))), original.state)
        case Ok(stored) =>
          var merged := MergeIntended(stored, a);
          var w := UpdateAstronaut(original.state, merged);
          match w.result
          case Err(e) => Reply(Err(Wrapped("error updating astronaut data", StoreFailure(e))), w.state)
          case Ok(_) => Reply(Ok(merged), w.state)
  }

  /** Away from the two quirks the update as written and the intended one are the same call. */
  lemma UpdatesAgreeAwayFromTheQuirks(requestUser: Option<User>, a: Astronaut, t: AstronautTable)
    requires a.birthDate == ""
    requires a.id in t.rows ==> a.birthPlace == "" || a.status != t.rows[a.id].birthPlace
    ensures Update(requestUser, a, t) == UpdateIntended(requestUser, a, t)
  {
    if a.id in t.rows {
      MergesAgreeAwayFromTheQuirks(t.rows[a.id], a);
    }
  }

  function Delete(requestUser: Option<User>, id: int, t: AstronautTable): (r: Reply<(), Error>)
    ensures requestUser.None? ==> r == Reply(Err(InvalidRequestUser), t)
    ensures requestUser.Some? && requestUser.value.role != Admin ==> r == Reply(Err(NotAuthorised), t)
    ensures IsAdminIdentity(requestUser) ==> r.table.log == t.log + [DeleteOp]
    ensures r.result.Ok? <==> IsAdminIdentity(requestUser) && DeleteOp !in t.failing
    ensures r.result.Ok? ==> r.table.rows == t.rows - {id}
    ensures r.result.Err? ==> r.table.rows == t.rows
  {
    match requestUser
    case None => Reply(Err(InvalidRequestUser), t)
    case Some(caller) =>
      if caller.role != Admin then Reply(Err(NotAuthorised), t)
      else
        var d := Stores.Delete(t, id);
        match d.result
        case Err(e) => Reply(Err(Wrapped("error deleting astronaut", StoreFailure(e))), d.state)
        case Ok(_) => Reply(Ok(()), d.state)
  }

  /** A non-admin identity is refused every mutation, whatever the payload, before any store call. */
  lemma {:induction false} OnlyAdminsMutate(caller: User, a: Astronaut, f: FieldFormats, id: int, t: AstronautTable)
    requires caller.role != Admin
    ensures Create(Some(caller), a, f, t) == Reply(Err([NotAuthorised]), t)
    ensures Update(Some(caller), a, t) == Reply(Err(NotAuthorised), t)
    ensures Delete(Some(caller), id, t) == Reply(Err(NotAuthorised), t)
  {
  }

  /** Deleting an id with no row reports success, indistinguishable from a real deletion. */
  lemma DeleteOfMissingIdSucceeds(caller: User, id: int, t: AstronautTable)
    requires caller.role == Admin && id !in t.rows && DeleteOp !in t.failing
    ensures Delete(Some(caller), id, t).result.Ok?
    ensures Delete(Some(caller), id, t).table.rows == t.rows
  {
  }

  /** An admin creating a record with a blank name gets a validation error citing the name; nothing is stored. */
  lemma BlankNameIsRejected(caller: User, a: Astronaut, f: FieldFormats, t: AstronautTable)
    requires caller.role == Admin && a.name == ""
    ensures Create(Some(caller), a, f, t).result.Err?
    ensures Invalid(FieldError("name", Blank)) in Create(Some(caller), a, f, t).result.error
    ensures Create(Some(caller), a, f, t).table == t
  {
    CreateChecksMeanAcceptable(f, a);
    var errs := Validate(AstronautRules(f), CreateChecks(a));
    var i :| 0 <= i < |errs| && errs[i] == FieldError("name", Blank);
    assert AsInvalid(errs)[i] == Invalid(FieldError("name", Blank));
  }
}
