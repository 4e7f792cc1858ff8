/**
 * The two record stores the services delegate to, as abstract tables: a map
 * from row id to record, the next id the SERIAL column hands out, the set of
 * operations the database currently fails, and the log of every call made.
 * The SQL text, the driver and the connection pool are not part of this model.
 */
module Stores {
  import opened Wrappers
  import opened Model

  /** The store operations, as recorded in a table's call log and named in its fault set. */
  datatype Op = CreateOp | ListOp | GetOp | UpdateOp | DeleteOp | SearchKeyOp

  datatype StoreError =
    | Unavailable    // the database failed the statement
    | NotFound       // no row has the id or key
    | Duplicate      // a UNIQUE column (email, api_key) already holds the value
    | NegativeBound  // LIMIT or OFFSET below zero
    | DoesNotFit     // the server refuses a value longer than its VARCHAR column
    | OutOfRange     // the driver refuses an integer outside INT's range before sending

  /** What a store call returns, with the table after the call. */
  datatype Answer<T, S> = Answer(result: Result<T, StoreError>, state: S)

  /** The `LIMIT limit OFFSET offset` window of a listing. */
  function Page<T>(xs: seq<T>, limit: int, offset: int): (r: Result<seq<T>, StoreError>)
    ensures r.Err? <==> limit < 0 || offset < 0
    ensures r.Ok? ==> |r.value| <= limit
    ensures r.Ok? ==> forall i | 0 <= i < |r.value| :: offset + i < |xs| && r.value[i] == xs[offset + i]
    ensures r.Ok? ==> |r.value| == (if offset >= |xs| then 0 else if offset + limit < |xs| then limit else |xs| - offset)
  {
    if limit < 0 || offset < 0 then Err(NegativeBound)
    else if offset >= |xs| then Ok([])
    else Ok(xs[offset .. if offset + limit < |xs| then offset + limit else |xs|])
  }

  /** The rows whose ids lie in [lo, hi), in ascending id order. */
  function Listing<T(==)>(rows: map<int, T>, lo: int, hi: int): (r: seq<T>)
    ensures forall x | x in r :: x in rows.Values
    ensures forall id | id in rows && lo <= id < hi :: rows[id] in r
    decreases hi - lo
  {
    if lo >= hi then []
    else (if lo in rows then [rows[lo]] else []) + Listing(rows, lo + 1, hi)
  }

  // ---------------------------------------------------------------------------
  // The user table

  /**
   * A table: its rows by id, the next id its SERIAL column hands out, the
   * operations the database currently fails, and the log of calls made on it.
   */
  datatype Table<R> = Table(rows: map<int, R>, nextId: int, failing: set<Op>, log: seq<Op>)

  /** Record a call in the table's log; nothing else changes. */
  function LogCall<R>(t: Table<R>, op: Op): (t': Table<R>)
    ensures t'.rows == t.rows && t'.nextId == t.nextId && t'.failing == t.failing
    ensures t'.log == t.log + [op]
  {
    t.(log := t.log + [op])
  }

  type UserTable = Table<User>

  /**
   * The table's constraints: SERIAL ids below `nextId`, each row stored under
   * its own id, and the UNIQUE email and api_key columns.
   */
  ghost predicate ValidUsers(t: UserTable) {
    && t.nextId >= 1
    && (forall id | id in t.rows :: 1 <= id < t.nextId && t.rows[id].id == id)
    && (forall a, b | a in t.rows && b in t.rows && a != b ::
          t.rows[a].email != t.rows[b].email && t.rows[a].apiKey != t.rows[b].apiKey)
  }

  predicate SharesUniqueColumn(x: User, y: User) {
    x.email == y.email || x.apiKey == y.apiKey
  }

  /** Some row other than `except` already holds `u`'s email or api key. */
  predicate Taken(t: UserTable, u: User, except: Option<int>) {
    exists id | id in t.rows :: Some(id) != except && SharesUniqueColumn(t.rows[id], u)
  }

  /**
   * The row fits the user table's VARCHAR columns (first_name, surname,
   * email, role); password and api_key are TEXT. Widths count characters.
   */
  predicate FitsUserColumns(u: User) {
    |u.firstName| <= 50 && |u.surname| <= 50 && |u.email| <= 255 && |u.role| <= 10
  }

  /**
   * INSERT ... RETURNING id; the id in the incoming record is ignored. The
   * server draws the SERIAL id before it judges the row, and a sequence is
   * never rolled back, so a refused row still uses up an id.
   */
  function CreateUser(t: UserTable, u: User): (a: Answer<int, UserTable>)
    ensures a.state.log == t.log + [CreateOp] && a.state.failing == t.failing
    ensures a.result.Err? ==> a.state.rows == t.rows
    ensures a.result.Err? <==> CreateOp in t.failing || !FitsUserColumns(u) || Taken(t, u, None)
    // the lengths are checked as the row is formed, before the UNIQUE indexes see it
    ensures a.result == Err(DoesNotFit) <==> CreateOp !in t.failing && !FitsUserColumns(u)
    // every statement the server runs draws an id, whether or not the row is kept
    ensures a.state.nextId == if CreateOp in t.failing then t.nextId else t.nextId + 1
    ensures a.result.Ok? ==>
      && a.result.value == t.nextId
      && a.state.rows == t.rows[a.result.value := u.(id := a.result.value)]
  {
    var t' := LogCall(t, CreateOp);
    if CreateOp in t.failing then Answer(Err(Unavailable), t')
    else
      var id := t.nextId;
      var drawn := t'.(nextId := id + 1);
      if !FitsUserColumns(u) then Answer(Err(DoesNotFit), drawn)
      else if Taken(t, u, None) then Answer(Err(Duplicate), drawn)
      else Answer(Ok(id), drawn.(rows := t.rows[id := u.(id := id)]))
  }

  /** SELECT ... LIMIT limit OFFSET offset over the whole table. */
  /** One LIMIT/OFFSET page of a table; both stores list the same way. */
  function List<R(==)>(t: Table<R>, limit: int, offset: int): (a: Answer<seq<R>, Table<R>>)
    ensures a.state == LogCall(t, ListOp)
    ensures ListOp in t.failing ==> a.result.Err?
    ensures ListOp !in t.failing ==> a.result == Page(Listing(t.rows, 1, t.nextId), limit, offset)
    ensures a.result.Ok? ==> forall x | x in a.result.value :: x in t.rows.Values
  {
    var t' := LogCall(t, ListOp);
    if ListOp in t.failing then Answer(Err(Unavailable), t')
    else Answer(Page(Listing(t.rows, 1, t.nextId), limit, offset), t')
  }

  /** Fetches one row by id; both stores answer the same way. */
  function Get<R>(t: Table<R>, id: int): (a: Answer<R, Table<R>>)
    ensures a.state == LogCall(t, GetOp)
    ensures a.result.Ok? <==> GetOp !in t.failing && id in t.rows
    ensures a.result.Ok? ==> a.result.value == t.rows[id]
  {
    var t' := LogCall(t, GetOp);
    if GetOp in t.failing then Answer(Err(Unavailable), t')
    else if id !in t.rows then Answer(Err(NotFound), t')
    else Answer(Ok(t.rows[id]), t')
  }

  /** Deletes by id; deleting an absent id is not an error in either store. */
  function Delete<R>(t: Table<R>, id: int): (a: Answer<(), Table<R>>)
    ensures a.state.log == t.log + [DeleteOp] && a.state.nextId == t.nextId
    ensures a.result.Ok? <==> DeleteOp !in t.failing
    ensures a.result.Ok? ==> a.state.rows == t.rows - {id}
    ensures a.result.Err? ==> a.state.rows == t.rows
  {
    var t' := LogCall(t, DeleteOp);
    if DeleteOp in t.failing then Answer(Err(Unavailable), t')
    else Answer(Ok(()), t'.(rows := t.rows - {id}))
  }

  /**
   * UPDATE ... WHERE id: every column but id and created_at is overwritten;
   * a missing id affects no row and is not an error, whatever the values.
   */
  function UpdateUser(t: UserTable, u: User): (a: Answer<(), UserTable>)
    ensures a.state.log == t.log + [UpdateOp] && a.state.nextId == t.nextId
    ensures a.result.Err? <==>
      UpdateOp in t.failing || (u.id in t.rows && (!FitsUserColumns(u) || Taken(t, u, Some(u.id))))
    ensures a.result.Ok? && u.id in t.rows ==>
      a.state.rows == t.rows[u.id := u.(createdAt := t.rows[u.id].createdAt)]
    ensures a.result.Err? || u.id !in t.rows ==> a.state.rows == t.rows
  {
    var t' := LogCall(t, UpdateOp);
    if UpdateOp in t.failing then Answer(Err(Unavailable), t')
    else if u.id !in t.rows then Answer(Ok(()), t')
    else if !FitsUserColumns(u) then Answer(Err(DoesNotFit), t')
    else if Taken(t, u, Some(u.id)) then Answer(Err(Duplicate), t')
    else Answer(Ok(()), t'.(rows := t.rows[u.id := u.(createdAt := t.rows[u.id].createdAt)]))
  }

  /** DELETE ... WHERE id: a missing id is not distinguished from a removed one. */
  /** The first row in [lo, hi), by id, whose api key is `key`. */
  function FirstWithKey(rows: map<int, User>, key: string, lo: int, hi: int): (r: Option<User>)
    ensures r.Some? ==> exists id | id in rows && lo <= id < hi :: rows[id] == r.value && r.value.apiKey == key
    ensures r.None? ==> forall id | id in rows && lo <= id < hi :: rows[id].apiKey != key
    decreases hi - lo
  {
    if lo >= hi then None
    else if lo in rows && rows[lo].apiKey == key then Some(rows[lo])
    else FirstWithKey(rows, key, lo + 1, hi)
  }

  function SearchApiKey(t: UserTable, key: string): (a: Answer<User, UserTable>)
    ensures a.state == LogCall(t, SearchKeyOp)
    ensures a.result.Ok? ==> a.result.value in t.rows.Values && a.result.value.apiKey == key
  {
    var t' := LogCall(t, SearchKeyOp);
    if SearchKeyOp in t.failing then Answer(Err(Unavailable), t')
    else match FirstWithKey(t.rows, key, 1, t.nextId)
      case None => Answer(Err(NotFound), t')
      case Some(u) => Answer(Ok(u), t')
  }

  /** In a valid table the key search finds exactly the row holding the key. */
  lemma SearchFindsTheKeyHolder(t: UserTable, key: string)
    requires ValidUsers(t) && SearchKeyOp !in t.failing
    ensures SearchApiKey(t, key).result.Ok? <==> exists id | id in t.rows :: t.rows[id].apiKey == key
    ensures forall id | id in t.rows && t.rows[id].apiKey == key :: SearchApiKey(t, key).result == Ok(t.rows[id])
  {
  }

  /** Every user-table operation keeps the table's constraints. */
  lemma UserTableStaysValid(t: UserTable, u: User, id: int)
    requires ValidUsers(t)
    ensures ValidUsers(CreateUser(t, u).state)
    ensures ValidUsers(UpdateUser(t, u).state)
    ensures ValidUsers(Delete(t, id).state)
  {
    var c := CreateUser(t, u);
    if c.result.Ok? {
      var n := c.result.value;
      forall a, b | a in c.state.rows && b in c.state.rows && a != b
        ensures c.state.rows[a].email != c.state.rows[b].email
        ensures c.state.rows[a].apiKey != c.state.rows[b].apiKey
      {
        if a == n {
          assert !SharesUniqueColumn(t.rows[b], u);
        } else if b == n {
          assert !SharesUniqueColumn(t.rows[a], u);
        }
      }
    }
    var w := UpdateUser(t, u);
    if w.result.Ok? && u.id in t.rows {
      forall a, b | a in w.state.rows && b in w.state.rows && a != b
        ensures w.state.rows[a].email != w.state.rows[b].email
        ensures w.state.rows[a].apiKey != w.state.rows[b].apiKey
      {
        if a == u.id {
          assert !SharesUniqueColumn(t.rows[b], u);
        } else if b == u.id {
          assert !SharesUniqueColumn(t.rows[a], u);
        }
      }
    }
  }

  /** A successful insert takes an id no existing row has. */
  lemma CreateUserTakesFreshId(t: UserTable, u: User)
    requires ValidUsers(t)
    requires CreateUser(t, u).result.Ok?
    ensures CreateUser(t, u).result.value !in t.rows
    ensures CreateUser(t, u).result.value >= 1
  {
  }

  // ---------------------------------------------------------------------------
  // The astronaut table

  type AstronautTable = Table<Astronaut>

  /**
   * The record as the astronaut table holds it: the four delimited source
   * strings have no column, so a row reads back with them empty.
   */
  function Persisted(x: Astronaut): (r: Astronaut)
    ensures r.almaMaterStr == "" && r.undergraduateMajorStr == "" && r.graduateMajorStr == "" && r.missionStr == ""
    // every field with a column is kept
    ensures r.(almaMaterStr := x.almaMaterStr, undergraduateMajorStr := x.undergraduateMajorStr,
               graduateMajorStr := x.graduateMajorStr, missionStr := x.missionStr) == x
  {
    x.(almaMaterStr := "", undergraduateMajorStr := "", graduateMajorStr := "", missionStr := "")
  }

  /** SERIAL ids below `nextId`, each row under its own id and holding only what has a column. */
  ghost predicate ValidAstronauts(t: AstronautTable) {
    && t.nextId >= 1
    && (forall id | id in t.rows :: 1 <= id < t.nextId && t.rows[id].id == id && Persisted(t.rows[id]) == t.rows[id])
  }

  /** The range of the table's INT columns; Go's `int` is wider. */
  const MinInt4 := -0x8000_0000
  const MaxInt4 := 0x7FFF_FFFF

  predicate FitsInt4(n: int) {
    MinInt4 <= n <= MaxInt4
  }

  /** Every element fits a `VARCHAR(width)[]` column; widths count characters. */
  predicate ElementsFit(xs: seq<string>, width: nat) {
    forall i | 0 <= i < |xs| :: |xs[i]| <= width
  }

  /** The record's integers fit the INT columns; the driver checks this before sending. */
  predicate IntsFit(x: Astronaut) {
    && FitsInt4(x.year) && FitsInt4(x.group)
    && FitsInt4(x.spaceFlights) && FitsInt4(x.spaceFlightHours)
    && FitsInt4(x.spaceWalks) && FitsInt4(x.spaceWalkHours)
  }

  /** The record's strings fit the VARCHAR columns; the server checks this. */
  predicate VarcharsFit(x: Astronaut) {
    && |x.name| <= 255 && |x.status| <= 20 && |x.birthDate| <= 20 && |x.birthPlace| <= 50 && |x.gender| <= 10
    && ElementsFit(x.almaMater, 50) && ElementsFit(x.undergraduateMajor, 50) && ElementsFit(x.graduateMajor, 50)
    && |x.militaryRank| <= 50 && |x.militaryBranch| <= 50
    && ElementsFit(x.missions, 50) && |x.deathDate| <= 20 && |x.deathMission| <= 50
  }

  /** The record fits the column types the astronaut table is created with. */
  predicate FitsColumns(x: Astronaut) {
    IntsFit(x) && VarcharsFit(x)
  }

  /**
   * The insert of `x` reaches the server, which draws a SERIAL id for it
   * whether or not it then keeps the row.
   */
  predicate ReachesServer(failing: set<Op>, x: Astronaut) {
    CreateOp !in failing && IntsFit(x)
  }

  /**
   * INSERT ... RETURNING id, scanned back into the caller's record, which
   * is returned with its delimited strings; the row keeps only the columns.
   * An integer the INT columns cannot hold never leaves the driver; any
   * other record draws a SERIAL id, kept or not.
   */
  function CreateAstronaut(t: AstronautTable, x: Astronaut): (a: Answer<Astronaut, AstronautTable>)
    ensures a.state.log == t.log + [CreateOp] && a.state.failing == t.failing
    // each insert is judged on its own record: one that does not fit is refused
    ensures a.result.Ok? <==> CreateOp !in t.failing && FitsColumns(x)
    ensures a.result == Err(OutOfRange) <==> CreateOp !in t.failing && !IntsFit(x)
    ensures a.state.nextId == if ReachesServer(t.failing, x) then t.nextId + 1 else t.nextId
    ensures a.result.Ok? ==>
      && a.result.value == x.(id := t.nextId)
      && a.state.rows == t.rows[t.nextId := Persisted(a.result.value)]
    ensures a.result.Err? ==> a.state.rows == t.rows
  {
    var t' := LogCall(t, CreateOp);
    if CreateOp in t.failing then Answer(Err(Unavailable), t')
    else if !IntsFit(x) then Answer(Err(OutOfRange), t')
    else
      var drawn := t'.(nextId := t.nextId + 1);
      if !VarcharsFit(x) then Answer(Err(DoesNotFit), drawn)
      else
        var created := x.(id := t.nextId);
        Answer(Ok(created), drawn.(rows := t.rows[t.nextId := Persisted(created)]))
  }

  /** SELECT ... LIMIT limit OFFSET offset over the whole table. */
  /** SELECT ... WHERE id; a missing row is a not-found error. */
  /**
   * UPDATE ... WHERE id: every column but id is overwritten. The driver
   * refuses an out-of-range integer before sending; otherwise a missing id
   * affects no row, and a row the strings do not fit is refused.
   */
  function UpdateAstronaut(t: AstronautTable, x: Astronaut): (a: Answer<(), AstronautTable>)
    ensures a.state.log == t.log + [UpdateOp] && a.state.nextId == t.nextId
    ensures a.result.Ok? <==> UpdateOp !in t.failing && IntsFit(x) && (x.id in t.rows ==> VarcharsFit(x))
    ensures a.result.Ok? && x.id in t.rows ==> a.state.rows == t.rows[x.id := Persisted(x)]
    ensures a.result.Err? || x.id !in t.rows ==> a.state.rows == t.rows
  {
    var t' := LogCall(t, UpdateOp);
    if UpdateOp in t.failing then Answer(Err(Unavailable), t')
    else if !IntsFit(x) then Answer(Err(OutOfRange), t')
    else if x.id !in t.rows then Answer(Ok(()), t')
    else if !VarcharsFit(x) then Answer(Err(DoesNotFit), t')
    else Answer(Ok(()), t'.(rows := t.rows[x.id := Persisted(x)]))
  }

  /** Every astronaut-table operation keeps ids consistent with the SERIAL column. */
  lemma AstronautTableStaysValid(t: AstronautTable, x: Astronaut, id: int)
    requires ValidAstronauts(t)
    ensures ValidAstronauts(CreateAstronaut(t, x).state)
    ensures ValidAstronauts(UpdateAstronaut(t, x).state)
    ensures ValidAstronauts(Delete(t, id).state)
    ensures Get(t, id).result.Ok? ==> Get(t, id).result.value.id == id
  {
  }
}
