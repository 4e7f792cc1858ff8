/**
 * Start-up of the database: building the two tables, and seeding the
 * astronaut table from the bundled CSV rows when it is empty. Each seed row
 * is lowercased in its text fields and its list columns are split out of
 * their delimited source strings.
 */
module Database {
  import opened Wrappers
  import opened Model
  import opened Stores

  // ---------------------------------------------------------------------------
  // Lowercasing (ASCII letters only)

  function LowerChar(c: char): char {
    if 'A' <= c <= 'Z' then (c as int - 'A' as int + 'a' as int) as char else c
  }

  predicate IsUpperAscii(c: char) {
    'A' <= c <= 'Z'
  }

  /** No ASCII capital letter anywhere in the string. */
  predicate IsLowercase(s: string) {
    forall i | 0 <= i < |s| :: !IsUpperAscii(s[i])
  }

  function ToLower(s: string): (r: string)
    ensures |r| == |s|
    ensures IsLowercase(r)
    // a character changes only when it is a capital, into its small letter
    ensures forall i | 0 <= i < |s| :: r[i] == s[i] || (IsUpperAscii(s[i]) && r[i] as int == s[i] as int + 32)
  {
    seq(|s|, i requires 0 <= i < |s| => LowerChar(s[i]))
  }

  /** A string with no capitals is its own lowercase form; hence lowercasing is idempotent. */
  lemma ToLowerFixesLowercase(s: string)
    ensures IsLowercase(s) <==> ToLower(s) == s
    ensures ToLower(ToLower(s)) == ToLower(s)
  {
    if ToLower(s) == s {
      assert IsLowercase(ToLower(s));
    }
  }

  /** The text fields the seed loader lowercases. */
  predicate TextFieldsLowercase(a: Astronaut) {
    && IsLowercase(a.name) && IsLowercase(a.status) && IsLowercase(a.birthPlace) && IsLowercase(a.gender)
    && IsLowercase(a.almaMaterStr) && IsLowercase(a.undergraduateMajorStr) && IsLowercase(a.graduateMajorStr)
    && IsLowercase(a.militaryBranch) && IsLowercase(a.militaryRank) && IsLowercase(a.deathMission)
    && IsLowercase(a.missionStr)
  }

  function FormatStrsToLower(a: Astronaut): (r: Astronaut)
    ensures TextFieldsLowercase(r)
    ensures r.name == ToLower(a.name) && r.status == ToLower(a.status)
    ensures r.birthPlace == ToLower(a.birthPlace) && r.gender == ToLower(a.gender)
    ensures r.almaMaterStr == ToLower(a.almaMaterStr)
    ensures r.undergraduateMajorStr == ToLower(a.undergraduateMajorStr)
    ensures r.graduateMajorStr == ToLower(a.graduateMajorStr)
    ensures r.militaryBranch == ToLower(a.militaryBranch) && r.militaryRank == ToLower(a.militaryRank)
    ensures r.deathMission == ToLower(a.deathMission) && r.missionStr == ToLower(a.missionStr)
    // every other field, the two dates included, is untouched
    ensures r.(name := a.name, status := a.status, birthPlace := a.birthPlace, gender := a.gender,
               almaMaterStr := a.almaMaterStr, undergraduateMajorStr := a.undergraduateMajorStr,
               graduateMajorStr := a.graduateMajorStr, militaryBranch := a.militaryBranch,
               militaryRank := a.militaryRank, deathMission := a.deathMission, missionStr := a.missionStr) == a
  {
    a.(name := ToLower(a.name), status := ToLower(a.status), birthPlace := ToLower(a.birthPlace),
       gender := ToLower(a.gender), almaMaterStr := ToLower(a.almaMaterStr),
       undergraduateMajorStr := ToLower(a.undergraduateMajorStr),
       graduateMajorStr := ToLower(a.graduateMajorStr), militaryBranch := ToLower(a.militaryBranch),
       militaryRank := ToLower(a.militaryRank), deathMission := ToLower(a.deathMission),
       missionStr := ToLower(a.missionStr))
  }

  /** Lowercasing a record twice is lowercasing it once. */
  lemma FormatIsIdempotent(a: Astronaut)
    ensures FormatStrsToLower(FormatStrsToLower(a)) == FormatStrsToLower(a)
  {
    var r := FormatStrsToLower(a);
    ToLowerFixesLowercase(r.name);
    ToLowerFixesLowercase(r.status);
    ToLowerFixesLowercase(r.birthPlace);
    ToLowerFixesLowercase(r.gender);
    ToLowerFixesLowercase(r.almaMaterStr);
    ToLowerFixesLowercase(r.undergraduateMajorStr);
    ToLowerFixesLowercase(r.graduateMajorStr);
    ToLowerFixesLowercase(r.militaryBranch);
    ToLowerFixesLowercase(r.militaryRank);
    ToLowerFixesLowercase(r.deathMission);
    ToLowerFixesLowercase(r.missionStr);
  }

  // ---------------------------------------------------------------------------
  // Splitting and joining on a one-character separator

  /** The pieces glued back together with the separator between neighbours. */
  function Join(pieces: seq<string>, sep: char): string
    requires |pieces| >= 1
  {
    if |pieces| == 1 then pieces[0] else pieces[0] + [sep] + Join(pieces[1..], sep)
  }

  predicate SeparatorFree(pieces: seq<string>, sep: char) {
    forall i | 0 <= i < |pieces| :: sep !in pieces[i]
  }

  /**
   * The pieces of `s` between occurrences of `sep`: one more piece than
   * there are separators, so the empty string gives one empty piece.
   */
  function Split(s: string, sep: char): (r: seq<string>)
    ensures |r| >= 1
    ensures SeparatorFree(r, sep)
    ensures Join(r, sep) == s
    decreases |s|
  {
    if s == [] then [""]
    else
      var rest := Split(s[1..], sep);
      if s[0] == sep then
        assert Join([""] + rest, sep) == [sep] + Join(rest, sep) by {
          assert ([""] + rest)[1..] == rest;
        }
        [""] + rest
      else
        var r := [[s[0]] + rest[0]] + rest[1..];
        assert Join(r, sep) == [s[0]] + Join(rest, sep) by {
          if |rest| > 1 {
            assert r[1..] == rest[1..];
          }
        }
        assert sep !in r[0];
        r
  }

  /** When the shorter first piece ends, the longer one holds the separator. */
  lemma SeparatorInside(p: string, x: string, q: string, y: string, sep: char)
    requires |p| < |q| && p + [sep] + x == q + [sep] + y
    ensures sep in q
  {
    assert (p + [sep] + x)[|p|] == sep;
    assert (q + [sep] + y)[|p|] == q[|p|];
  }

  /** A separator-free piece followed by the separator is determined by the joined text. */
  lemma FirstPieceIsDetermined(p: string, q: string, x: string, y: string, sep: char)
    requires sep !in p && sep !in q
    requires p + [sep] + x == q + [sep] + y
    ensures p == q && x == y
  {
    var u := p + [sep] + x;
    if |p| < |q| {
      SeparatorInside(p, x, q, y, sep);
      assert false;
    } else if |q| < |p| {
      SeparatorInside(q, y, p, x, sep);
      assert false;
    }
    assert p == u[..|p|] == q;
    assert x == u[|p| + 1..] == y;
  }

  /** Joining separator-free pieces loses nothing: equal joins come from equal pieces. */
  lemma {:induction false} JoinIsInjective(ps: seq<string>, qs: seq<string>, sep: char)
    requires |ps| >= 1 && |qs| >= 1
    requires SeparatorFree(ps, sep) && SeparatorFree(qs, sep)
    requires Join(ps, sep) == Join(qs, sep)
    ensures ps == qs
    decreases |ps|
  {
    if |ps| == 1 && |qs| == 1 {
    } else if |ps| == 1 {
      assert false;
    } else if |qs| == 1 {
      assert false;
    } else {
      FirstPieceIsDetermined(ps[0], qs[0], Join(ps[1..], sep), Join(qs[1..], sep), sep);
      assert SeparatorFree(ps[1..], sep) by {
        forall i | 0 <= i < |ps[1..]| ensures sep !in ps[1..][i] {
          assert ps[1..][i] == ps[i + 1];
        }
      }
      assert SeparatorFree(qs[1..], sep) by {
        forall i | 0 <= i < |qs[1..]| ensures sep !in qs[1..][i] {
          assert qs[1..][i] == qs[i + 1];
        }
      }
      JoinIsInjective(ps[1..], qs[1..], sep);
      assert ps == [ps[0]] + ps[1..];
      assert qs == [qs[0]] + qs[1..];
    }
  }

  /**
   * Splitting undoes joining separator-free pieces; the other direction,
   * joining the pieces of a split, is part of `Split`'s own contract.
   */
  lemma SplitJoinRoundTrip(pieces: seq<string>, sep: char)
    requires |pieces| >= 1 && SeparatorFree(pieces, sep)
    ensures Split(Join(pieces, sep), sep) == pieces
  {
    var j := Join(pieces, sep);
    JoinIsInjective(Split(j, sep), pieces, sep);
  }

  /** Every piece of a lowercase string is lowercase. */
  lemma {:induction false} PiecesOfLowercase(s: string, sep: char)
    requires IsLowercase(s)
    ensures forall i | 0 <= i < |Split(s, sep)| :: IsLowercase(Split(s, sep)[i])
    decreases |s|
  {
    if s != [] {
      PiecesOfLowercase(s[1..], sep);
    }
  }

  // ---------------------------------------------------------------------------
  // Seed rows

  /** One CSV row made ready for insertion: lowercased first, then its list columns split. */
  function NormaliseSeedRow(a: Astronaut): (r: Astronaut)
    ensures TextFieldsLowercase(r)
    // everything but the four list fields is the lowercased record
    ensures r == FormatStrsToLower(a).(almaMater := r.almaMater, undergraduateMajor := r.undergraduateMajor,
                                       graduateMajor := r.graduateMajor, missions := r.missions)
  {
    var l := FormatStrsToLower(a);
    l.(almaMater := Split(l.almaMaterStr, ';'),
       undergraduateMajor := Split(l.undergraduateMajorStr, ';'),
       graduateMajor := Split(l.graduateMajorStr, ';'),
       missions := Split(l.missionStr, ','))
  }

  /**
   * Each list field of a seed row is non-empty and separator-free, and joins
   * back to the lowercased delimited string it was split from.
   */
  lemma SeedListsJoinBack(a: Astronaut)
    ensures var r := NormaliseSeedRow(a);
      && |r.almaMater| >= 1 && |r.undergraduateMajor| >= 1 && |r.graduateMajor| >= 1 && |r.missions| >= 1
      && Join(r.almaMater, ';') == ToLower(a.almaMaterStr) && SeparatorFree(r.almaMater, ';')
      && Join(r.undergraduateMajor, ';') == ToLower(a.undergraduateMajorStr) && SeparatorFree(r.undergraduateMajor, ';')
      && Join(r.graduateMajor, ';') == ToLower(a.graduateMajorStr) && SeparatorFree(r.graduateMajor, ';')
      && Join(r.missions, ',') == ToLower(a.missionStr) && SeparatorFree(r.missions, ',')
  {
  }

  predicate AllLowercase(xs: seq<string>) {
    forall i | 0 <= i < |xs| :: IsLowercase(xs[i])
  }

  /** Lowercasing precedes splitting, so every list element of a seed row is lowercase. */
  lemma SeedListsAreLowercase(a: Astronaut)
    ensures var r := NormaliseSeedRow(a);
      AllLowercase(r.almaMater) && AllLowercase(r.undergraduateMajor) &&
      AllLowercase(r.graduateMajor) && AllLowercase(r.missions)
  {
    var l := FormatStrsToLower(a);
    PiecesOfLowercase(l.almaMaterStr, ';');
    PiecesOfLowercase(l.undergraduateMajorStr, ';');
    PiecesOfLowercase(l.graduateMajorStr, ';');
    PiecesOfLowercase(l.missionStr, ',');
  }

  /** `n` calls of the same kind, as they appear in a call log. */
  function Calls(op: Op, n: nat): seq<Op> {
    seq(n, _ => op)
  }

  /**
   * How many of `xs` the table takes before refusing one: none when inserts
   * fail outright, otherwise every record up to the first that does not fit.
   */
  function Accepted(xs: seq<Astronaut>, failing: set<Op>): (k: nat)
    ensures k <= |xs|
    ensures forall i | 0 <= i < k :: CreateOp !in failing && FitsColumns(xs[i])
    ensures k < |xs| ==> CreateOp in failing || !FitsColumns(xs[k])
    decreases |xs|
  {
    if xs == [] || CreateOp in failing || !FitsColumns(xs[0]) then 0
    else 1 + Accepted(xs[1..], failing)
  }

  /**
   * How many SERIAL ids inserting `xs` draws: one per accepted record, and
   * one more when the refused record reached the server.
   */
  function Drawn(xs: seq<Astronaut>, failing: set<Op>): (n: nat)
    ensures Accepted(xs, failing) <= n <= Accepted(xs, failing) + 1
    ensures n == Accepted(xs, failing) + 1 <==>
      Accepted(xs, failing) < |xs| && ReachesServer(failing, xs[Accepted(xs, failing)])
  {
    var k := Accepted(xs, failing);
    if k < |xs| && ReachesServer(failing, xs[k]) then k + 1 else k
  }

  /**
   * Insert the records one at a time, each insert committing on its own; the
   * first refused insert ends the loop with the records before it stored.
   */
  function InsertAll(xs: seq<Astronaut>, t: AstronautTable): (a: Answer<(), AstronautTable>)
    ensures a.state.failing == t.failing
    ensures a.result.Ok? <==> Accepted(xs, t.failing) == |xs|
    ensures a.state.nextId == t.nextId + Drawn(xs, t.failing)
    // one insert per record up to and including the refused one
    ensures a.state.log == t.log + Calls(CreateOp, if a.result.Ok? then |xs| else Accepted(xs, t.failing) + 1)
    decreases |xs|
  {
    if xs == [] then Answer(Ok(()), t)
    else
      var c := CreateAstronaut(t, xs[0]);
      match c.result
      case Err(e) =>
        assert c.state.log == t.log + Calls(CreateOp, 1);
        Answer(Err(e), c.state)
      case Ok(_) =>
        var rest := InsertAll(xs[1..], c.state);
        var n := if rest.result.Ok? then |xs| - 1 else Accepted(xs[1..], t.failing) + 1;
        assert t.log + Calls(CreateOp, n + 1) == c.state.log + Calls(CreateOp, n);
        rest
  }

  /**
   * Whether or not the run succeeds, each accepted record is stored under
   * its consecutive id from the table's next id.
   */
  lemma {:induction false} InsertAllStoresAt(xs: seq<Astronaut>, t: AstronautTable, id: int)
    requires t.nextId <= id < t.nextId + Accepted(xs, t.failing)
    ensures id in InsertAll(xs, t).state.rows
    ensures InsertAll(xs, t).state.rows[id] == Persisted(xs[id - t.nextId].(id := id))
    decreases |xs|
  {
    var c := CreateAstronaut(t, xs[0]);
    assert Accepted(xs, t.failing) == 1 + Accepted(xs[1..], c.state.failing);
    assert InsertAll(xs, t).state == InsertAll(xs[1..], c.state).state;
    if id == t.nextId {
      InsertAllKeepsRows(xs[1..], c.state);
      assert id in c.state.rows && id < c.state.nextId;
    } else {
      InsertAllStoresAt(xs[1..], c.state, id);
      assert xs[1..][id - c.state.nextId] == xs[id - t.nextId];
    }
  }

  /** Earlier rows are kept, and no row appears outside the accepted ids. */
  lemma {:induction false} InsertAllKeepsRows(xs: seq<Astronaut>, t: AstronautTable)
    ensures forall id | id in t.rows && id < t.nextId ::
      id in InsertAll(xs, t).state.rows && InsertAll(xs, t).state.rows[id] == t.rows[id]
    ensures forall id | id in InsertAll(xs, t).state.rows ::
      id in t.rows || t.nextId <= id < t.nextId + Accepted(xs, t.failing)
    decreases |xs|
  {
    if xs != [] && CreateOp !in t.failing && FitsColumns(xs[0]) {
      var c := CreateAstronaut(t, xs[0]);
      assert Accepted(xs, t.failing) == 1 + Accepted(xs[1..], c.state.failing);
      InsertAllKeepsRows(xs[1..], c.state);
      assert InsertAll(xs, t).state == InsertAll(xs[1..], c.state).state;
    }
  }

  /** The seed rows as they are inserted. */
  function NormaliseAll(rows: seq<Astronaut>): (r: seq<Astronaut>)
    ensures |r| == |rows| && forall i | 0 <= i < |rows| :: r[i] == NormaliseSeedRow(rows[i])
  {
    seq(|rows|, i requires 0 <= i < |rows| => NormaliseSeedRow(rows[i]))
  }

  /**
   * Seeding: each CSV row is normalised and then inserted. It succeeds iff
   * every normalised row is accepted; `PopulateStoresRow` says what the
   * table holds afterwards.
   */
  function Populate(rows: seq<Astronaut>, t: AstronautTable): (a: Answer<(), AstronautTable>)
    ensures a.result.Ok? <==> Accepted(NormaliseAll(rows), t.failing) == |rows|
    // no row appears but the earlier ones and the accepted seed rows
    ensures forall id | id in a.state.rows ::
      id in t.rows || t.nextId <= id < t.nextId + Accepted(NormaliseAll(rows), t.failing)
  {
    InsertAllKeepsRows(NormaliseAll(rows), t);
    InsertAll(NormaliseAll(rows), t)
  }

  /** Seeding uses up one SERIAL id per accepted row, and one more for a refused row the server saw. */
  lemma PopulateDrawsIds(rows: seq<Astronaut>, t: AstronautTable)
    ensures Populate(rows, t).state.nextId == t.nextId + Drawn(NormaliseAll(rows), t.failing)
  {
    assert Populate(rows, t) == InsertAll(NormaliseAll(rows), t);
  }

  /**
   * Every accepted seed row is stored, normalised, under its id, whether or
   * not a later row is refused.
   */
  lemma PopulateStoresRow(rows: seq<Astronaut>, t: AstronautTable, id: int)
    requires t.nextId <= id < t.nextId + Accepted(NormaliseAll(rows), t.failing)
    ensures id in Populate(rows, t).state.rows
    ensures Populate(rows, t).state.rows[id] == Persisted(NormaliseSeedRow(rows[id - t.nextId]).(id := id))
  {
    var xs := NormaliseAll(rows);
    InsertAllStoresAt(xs, t, id);
    assert Populate(rows, t) == InsertAll(xs, t);
    assert xs[id - t.nextId] == NormaliseSeedRow(rows[id - t.nextId]);
  }

  // ---------------------------------------------------------------------------
  // Init

  datatype Step = BuildUserTable | BuildAstronautTable | CountAstronauts | SeedAstronauts

  /**
   * What the environment does: the steps whose first database call fails
   * (for the seed step, opening the CSV file), and the rows the CSV file
   * decodes to (`None` when it cannot be decoded).
   */
  datatype Env = Env(failing: set<Step>, csv: Option<seq<Astronaut>>)

  /**
   * What start-up reports, the steps it ran, and the astronaut table it
   * leaves behind, which outlives a failed start-up.
   */
  datatype InitRun = InitRun(result: Result<(), string>, ran: seq<Step>, table: AstronautTable)

  /** The steps start-up means to run against a table currently holding `count` rows. */
  function Plan(count: int): seq<Step> {
    [BuildUserTable, BuildAstronautTable, CountAstronauts] + (if count == 0 then [SeedAstronauts] else [])
  }

  /** Whether a step succeeds; the seed step also needs the decoded rows, every one accepted. */
  predicate StepSucceeds(env: Env, t: AstronautTable, s: Step) {
    s !in env.failing &&
    (s == SeedAstronauts ==> env.csv.Some? && Accepted(NormaliseAll(env.csv.value), t.failing) == |env.csv.value|)
  }

  /** The seed step gets as far as inserting rows. */
  predicate SeedInserts(env: Env) {
    SeedAstronauts !in env.failing && env.csv.Some?
  }

  function Init(env: Env, t: AstronautTable): (r: InitRun)
    // the steps run form a prefix of the plan, ending at the first failing step
    ensures 1 <= |r.ran| <= |Plan(|t.rows|)| && r.ran == Plan(|t.rows|)[..|r.ran|]
    ensures forall i | 0 <= i < |r.ran| - 1 :: StepSucceeds(env, t, r.ran[i])
    ensures r.result.Ok? <==> forall i | 0 <= i < |Plan(|t.rows|)| :: StepSucceeds(env, t, Plan(|t.rows|)[i])
    ensures r.result.Ok? ==> r.ran == Plan(|t.rows|)
    ensures r.result.Err? ==> !StepSucceeds(env, t, r.ran[|r.ran| - 1])
    // seeding happens only into an empty table
    ensures SeedAstronauts in r.ran <==> |t.rows| == 0 && r.ran == Plan(0)
    // the table changes only by the seed inserts, which stay even when seeding fails
    ensures SeedAstronauts in r.ran && SeedInserts(env) ==> r.table == Populate(env.csv.value, t).state
    ensures !(SeedAstronauts in r.ran && SeedInserts(env)) ==> r.table == t
  {
    var plan := Plan(|t.rows|);
    assert plan[0] == BuildUserTable && plan[1] == BuildAstronautTable && plan[2] == CountAstronauts;
    assert |t.rows| == 0 ==> plan[3] == SeedAstronauts;
    if BuildUserTable in env.failing then InitRun(Err("failed to build 'USER' table"), [BuildUserTable], t)
    else if BuildAstronautTable in env.failing then
      InitRun(Err("failed to build 'ASTRONAUT' table"), [BuildUserTable, BuildAstronautTable], t)
    else if CountAstronauts in env.failing then
      InitRun(Err("failed to get 'ASTRONAUT' count"), [BuildUserTable, BuildAstronautTable, CountAstronauts], t)
    else if |t.rows| != 0 then
      InitRun(Ok(()), Plan(|t.rows|), t)
    else if !SeedInserts(env) then
      InitRun(Err("faild to seed 'ASTRONAUT' table"), Plan(0), t)
    else
      var seeded := Populate(env.csv.value, t);
      if seeded.result.Ok? then InitRun(Ok(()), Plan(0), seeded.state)
      else InitRun(Err("faild to seed 'ASTRONAUT' table"), Plan(0), seeded.state)
  }

  /**
   * A successful start-up on an empty table stores each CSV row, normalised,
   * under its consecutive id.
   */
  lemma SeedingStoresEachRow(env: Env, t: AstronautTable, id: int)
    requires |t.rows| == 0 && Init(env, t).result.Ok?
    requires env.csv.Some? && t.nextId <= id < t.nextId + |env.csv.value|
    ensures id in Init(env, t).table.rows
    ensures Init(env, t).table.rows[id] == Persisted(NormaliseSeedRow(env.csv.value[id - t.nextId]).(id := id))
  {
    InitSeedsEmptyTable(env, t);
    PopulateStoresRow(env.csv.value, t, id);
  }

  /** A successful start-up on an empty table leaves exactly the fully seeded table. */
  lemma InitSeedsEmptyTable(env: Env, t: AstronautTable)
    requires |t.rows| == 0 && Init(env, t).result.Ok?
    ensures env.csv.Some? && Populate(env.csv.value, t).result.Ok?
    ensures Init(env, t).table == Populate(env.csv.value, t).state
  {
    var plan := Plan(0);
    assert plan[3] == SeedAstronauts && StepSucceeds(env, t, plan[3]);
  }

  /**
   * A seed the table refuses part-way fails start-up yet keeps the rows
   * inserted before the refusal; the next start-up counts them and never
   * seeds again, so the table stays partly seeded for good.
   */
  lemma PartialSeedIsNeverCompleted(env: Env, t: AstronautTable, later: Env)
    requires |t.rows| == 0
    requires BuildUserTable !in env.failing && BuildAstronautTable !in env.failing && CountAstronauts !in env.failing
    requires SeedInserts(env)
    requires 0 < Accepted(NormaliseAll(env.csv.value), t.failing) < |env.csv.value|
    ensures Init(env, t).result.Err?
    ensures t.nextId in Init(env, t).table.rows && |Init(env, t).table.rows| > 0
    ensures SeedAstronauts !in Init(later, Init(env, t).table).ran
    ensures Init(later, Init(env, t).table).table == Init(env, t).table
  {
    var r := Init(env, t);
    assert Plan(0)[3] == SeedAstronauts;
    assert r.table == Populate(env.csv.value, t).state;
    PopulateStoresRow(env.csv.value, t, t.nextId);
    assert |r.table.rows.Keys| > 0;
  }

  /** A record with nothing in it, and one whose birth place is a character too long for its column. */
  const BlankRecord := Astronaut(0, "", 0, 0, "", "", "", "", "", "", "", "", "", 0, 0, 0, 0, "", "", "", [], [], [], [])
  const LongPlaceRecord := BlankRecord.(birthPlace := seq(51, _ => 'x'))

  /** Two CSV rows of which the table takes the first and refuses the second. */
  lemma PartialSeedExample()
    ensures Accepted(NormaliseAll([BlankRecord, LongPlaceRecord]), {}) == 1
  {
    var xs := NormaliseAll([BlankRecord, LongPlaceRecord]);
    assert ToLower("") == "";
    assert Split("", ';') == [""] && Split("", ',') == [""];
    assert FitsColumns(xs[0]);
    assert |xs[1].birthPlace| == 51;
    assert xs[1..][0] == xs[1];
  }
}
