# Astronaut data API — verified model of its policy and data logic

This project models the logic of the astronaut data API: a small HTTP service that stores astronaut records and the API users allowed to read and change them. It models every part of the service except the HTTP and SQL plumbing:

- **The rule-based field validator.** `Validate` runs every named rule on every field and collects one error per failing (field, rule) pair. The built-in rules are Required, Length, Email, Password and Role.
- **The user service.**
  - Registration is a pipeline: validate, coerce the role, hash the password, issue an API key, persist, clear the password.
  - List, get, update and delete are gated by the role of the caller the API key resolves to, and by whether the caller's id matches the target's.
  - An earlier revision of the service (`LegacyUserService`) has neither validation nor authorization. It is modelled too, to pin down how the two revisions differ.
- **The astronaut service.**
  - Creating, updating and deleting are admin-only. Listing and fetching are open.
  - Update reconciles a partial record with the stored one through `CompareAstronautData`.
- **The API-key gate** in front of the protected routes, and the response-writer wrapper that records the status code.
- **Database start-up.**
  - The tables are built in a fixed order.
  - The astronaut table is seeded only when it is empty.
  - Each seed row is lowercased, then its delimited list columns are split.
  - Each insert commits on its own and may be refused for its own record (a value too long for its column, an integer outside the 32-bit range). The seed stops at the first refusal and keeps the rows before it, so a failed start-up can leave a partly seeded table that later start-ups never complete.

The two stores are abstract tables: a map from id to record plus the next id to hand out. Each table also keeps a log of the calls made on it and a set of call kinds that fail. "No store call" therefore means that the log is unchanged, and every store error path can be reached. The following are parameters:

- the password hash (an oracle that may fail);
- the fresh API key;
- the clock;
- the UUID parser;
- the status, date and gender rules.

| file | module | what it holds |
|---|---|---|
| wrappers.dfy | `Wrappers` | `Option`, `Result` |
| model.dfy | `Model` | the `User` and `Astronaut` records, the two role names |
| validation.dfy | `Validation` | rules, byte length, character classes, the email pattern, `Validate` and its loop implementation |
| stores.dfy | `Stores` | the user and astronaut tables and their operations |
| errors.dfy | `ServiceErrors` | the errors the services return |
| user_service.dfy | `UserService` | the current user service |
| legacy_user_service.dfy | `LegacyUserService` | the earlier user service and how it differs |
| astronaut_service.dfy | `AstronautService` | the astronaut service and the merge |
| middleware.dfy | `Middleware` | the API-key gate and the status recorder |
| database.dfy | `Database` | lowercasing, splitting, seeding, start-up order |

## Model

| member | source | states |
|---|---|---|
| Validation.Validate | internal/validation/validate.go:32-46 | no error exactly when every listed rule passes for every field |
| Validation.RunValidator | internal/validation/validate.go:32-46 | the nested loop over fields and rule keys computes the same list as `Validate` |
| Validation.ValidateReportsExactlyFailures | internal/validation/validate.go:32-46 | an error is in the list iff some listed rule of that field produced it |
| Validation.ValidateCount | internal/validation/validate.go:35-43 | the list holds exactly one error per failing (field, rule) pair; nothing short-circuits |
| Validation.ValidateConcat | internal/validation/validate.go:35-43 | errors of one field never depend on another: validating two groups of fields gives the two lists end to end |
| Validation.FieldErrorsContains | internal/validation/validate.go:36-41 | each failing rule of a field contributes its error |
| Validation.FieldErrorsSound | internal/validation/validate.go:36-41 | every error of a field comes from one of its listed rules |
| Validation.Apply | internal/validation/validate.go:48-126 | for each rule, when it fails: Required on the empty string; Length on a non-string or more than `max` bytes; Email on a non-string or no match of the pattern; Password on a non-string or a weak password; Role on anything but the two role names |
| Validation.RequiredMeansNonEmpty | internal/validation/validate.go:48-53 | Required fails exactly on the empty string |
| Validation.ByteLenBounds | internal/validation/validate.go:61 | the byte length is at least the character count, zero only for the empty string, and equals it for ASCII |
| Validation.LengthIsByteBound | internal/validation/validate.go:55-66 | exactly `max` bytes passes, `max + 1` fails; a passing string passes any looser bound and its prefixes pass too |
| Validation.EmailNeedsAt | internal/validation/validate.go:68-78 | a string without `@` is never an email address |
| Validation.EmailExamples | internal/validation/validate_test.go:16-34 | `test@email.com` passes and `testemail.com` fails |
| Validation.Classify | internal/validation/validate.go:95-105 | a character counts toward the first matching class in the order upper, lower, number, special |
| Validation.ClassOfExtended | internal/validation/validate.go:95-106 | one more character adds exactly its own class to the classes seen |
| Validation.ScanPassword | internal/validation/validate.go:80-113 | the single pass over the characters accepts exactly the strong passwords: long enough and holding all four classes |
| Validation.PasswordExamples | internal/validation/validate_test.go:19-33 | `Test1_` passes Password(4); `test` fails it with one error |
| Validation.RoleAcceptsOnlyKnownRoles | internal/validation/validate.go:115-126 | Role passes exactly `admin` and `user` |
| Validation.ValidTestDataPasses | internal/validation/validate_test.go:15-26 | the three valid fields give no error, in whichever order they are visited |
| Validation.InvalidTestDataGivesFourErrors | internal/validation/validate_test.go:28-41 | the four invalid fields give exactly four errors, in whichever order they are visited |
| Validation.OneFailurePerEntry | internal/validation/validate_test.go:28-41 | fields that each fail exactly one rule give one error each |
| Stores.Page | internal/service/user/store/store.go:35-54 | a negative bound is an error; otherwise the page holds the rows from `offset` on, in order, exactly `limit` of them when that many remain and all the remaining ones otherwise |
| Stores.CreateUser | internal/service/user/store/store.go:21-33 | the insert fails iff the database fails, a name, the email or the role is wider than its VARCHAR column (database.go:75-80), or the email or API key is taken, and an over-wide row is refused before the uniqueness test; every statement the server runs uses up the next SERIAL id, and only a kept row is stored under it |
| Stores.List | internal/service/user/store/store.go:35-54 | a failing database gives an error; otherwise the result is the LIMIT/OFFSET page of the whole table, and every listed row is stored; the astronaut store (internal/store/astronaut.go:40-58) lists the same way |
| Stores.Get | internal/service/user/store/store.go:56-64 | found exactly when the database works and the id is present; the row is returned as stored; the astronaut store (internal/store/astronaut.go:60-72) answers the same way |
| Stores.UpdateUser | internal/service/user/store/store.go:66-75 | the row is replaced, keeping its creation time; a value wider than its column or a clash on a unique column is an error; an absent id changes nothing, whatever the values |
| Stores.Delete | internal/service/user/store/store.go:77-85 | when the database works the row is gone afterwards, whether or not it existed; otherwise no row changes; the astronaut store (internal/store/astronaut.go:87-94) behaves the same |
| Stores.SearchApiKey | internal/model/user.go:32 | the search is one logged call that changes no row; a user it returns is stored and holds the key |
| Stores.SearchFindsTheKeyHolder | internal/model/user.go:32 | the key search finds a user iff some row holds the key, and then it finds that row |
| Stores.UserTableStaysValid | internal/database/database.go:73-83 | every operation keeps ids in range and emails and API keys unique |
| Stores.CreateUserTakesFreshId | internal/database/database.go:74 | a new user's id was not in use before |
| Stores.CreateAstronaut | internal/store/astronaut.go:22-38 | each insert is judged on its own record: it succeeds iff the database works and the record fits the column types of database.go:97-118; an integer outside INT never leaves the driver and uses no id, while any other statement uses up the next SERIAL id; a kept record is returned under that id with its delimited strings, while the stored row keeps only the columns (the four delimited strings read back empty, internal/store/astronaut.go:95-105); a refused insert changes no row |
| Stores.UpdateAstronaut | internal/store/astronaut.go:74-85 | an integer outside INT is refused before sending; otherwise an absent id changes nothing, and the row with the record's id is replaced by the record's columns (its delimited strings read back empty) unless a string is wider than its column, which is an error |
| Stores.AstronautTableStaysValid | internal/database/database.go:97-98 | every operation keeps each row stored under its own id and holding only what the columns hold |
| Stores.Persisted | internal/store/astronaut.go:95-105 | a stored row has the four delimited strings empty, since no column holds them, and it agrees with the record on every other field |
| UserService.CreateChecksMeanAcceptable | internal/service/user.go:28-44 | registration passes validation iff the names are non-empty and within 50 bytes, the email is a matching address within 50 bytes, and the password is strong with at least 8 bytes |
| UserService.CoerceRole | internal/service/user.go:50-52 | the stored role is `admin` iff the requested role is exactly `admin`, and `user` otherwise |
| UserService.CoercedRolePassesRoleRule | internal/service/user.go:50-52 | whatever role was requested, the coerced one is accepted by the `Role` rule of validate.go |
| UserService.Create | internal/service/user.go:35-78 | a rejected payload returns the whole error list before hashing or any store call; a failing hash or insert gives one error; on success the row holds the hash, the fresh key and the creation time, and the reply has the store's id and an empty password |
| UserService.CreateRoleIsAdminIffRequested | internal/service/user.go:50-77 | the registered user is an admin iff the request asked for `admin`; the reply's password is empty |
| UserService.CreateSucceedsWhen | internal/service/user.go:46-77 | registration succeeds iff the payload is valid, the hash works, the insert works and the email and key are free |
| UserService.AcceptablePayloadFitsColumns | internal/service/user.go:28-43 | the 50-byte bounds on the names and the email and the coerced role keep every registered row within the user table's VARCHAR columns |
| UserService.ResolveCaller | internal/service/user.go:81-93 | no key is rejected without a lookup; otherwise exactly one key search runs, and the caller resolves iff that search returns a user |
| UserService.List | internal/service/user.go:80-105 | only an admin caller reaches the listing; the log shows the key search and, for an admin, the list call |
| UserService.Get | internal/service/user.go:107-132 | only an admin caller reaches the fetch, and gets the stored row |
| UserService.Update | internal/service/user.go:134-169 | an admin or the user themself may update; the baseline fetch must succeed; nothing bounds the fields on this path; once a permitted caller's fetch succeeds the record is always written, and the update succeeds iff the database works, the record fits the user columns and no other row holds its email or key; the stored row is the incoming record stamped with the time, keeping its creation time |
| UserService.Delete | internal/service/user.go:171-197 | an admin or the user themself may delete; the row is gone afterwards |
| UserService.ServiceFollowsPolicy | internal/service/user.go:95-190 | each operation refuses a resolved caller exactly when the role and self-match table forbids it |
| UserService.UnresolvedCallerTouchesOnlyLookup | internal/service/user.go:81-93 | a key that does not resolve fails every operation, and only the key search reaches the store |
| UserService.NonAdminCannotFetchSelf | internal/service/user.go:122-124 | a non-admin is refused even when fetching their own record |
| UserService.SelfUpdateCanSetAnyRole | internal/service/user.go:149-168 | a user updating themself can store any role string that fits the 10-character role column, `admin` included |
| UserService.RegistrationExample | internal/service/user.go:35-78 | a concrete valid registration without a role gets role `user`, the fresh key and the current time, and an empty password in the reply |
| LegacyUserService.Create | internal/service/user/usecase/usecase.go:25-51 | no validation: every payload whose password hashes reaches the store, and the insert succeeds iff the database works, the unbounded names and email fit their columns and the email and key are free; the reply keeps the hash |
| LegacyUserService.List | internal/service/user/usecase/usecase.go:53-65 | delegates to the store with no authorization |
| LegacyUserService.Get | internal/service/user/usecase/usecase.go:67-79 | delegates to the store with no authorization |
| LegacyUserService.Update | internal/service/user/usecase/usecase.go:81-98 | the baseline fetch must succeed; once it does the record is always written, and the update succeeds iff the database works, the record fits the user columns and no other row holds its email or key; the incoming record is stored with only the update time stamped |
| LegacyUserService.Delete | internal/service/user/usecase/usecase.go:100-108 | delegates to the store with no authorization |
| LegacyUserService.RevisionsDifferOnlyInPassword | internal/service/user/usecase/usecase.go:25-51 | on a valid payload both revisions store the same row; only the current one clears the password in its reply |
| LegacyUserService.BlankNameReachesLegacyStore | internal/service/user/usecase/usecase.go:25-44 | a blank first name is rejected now but reached the store before |
| LegacyUserService.AuthorisedCallsMatchLegacy | internal/service/user/usecase/usecase.go:53-108 | once the current revision admits a caller, each operation does what the earlier one did unconditionally |
| AstronautService.CreateChecksMeanAcceptable | internal/service/astronaut.go:48-60 | creation passes validation iff the name and birth place are non-empty and the status, date and gender rules accept; a blank name is reported |
| AstronautService.Create | internal/service/astronaut.go:32-73 | no identity and a non-admin are each refused with one error and no store call; a rejected record returns the whole error list; an admin's acceptable record always reaches the store, and creation succeeds iff the database works and the record fits the column types, drawing an id iff the insert reached the server; on success the record's columns are stored under the next id |
| AstronautService.List | internal/service/astronaut.go:75-85 | no identity is consulted; the listing succeeds iff the database works and both bounds are non-negative, and then the reply is exactly the store's LIMIT/OFFSET page |
| AstronautService.Get | internal/service/astronaut.go:87-97 | no identity is consulted; found exactly when stored |
| AstronautService.CompareAstronautData | internal/service/astronaut.go:143-166 | name and gender adopt a non-empty incoming value, and year and group a non-zero one. An incoming birth date never lands and, without an incoming status, blanks the status. The birth place is adopted unless the incoming status equals the stored birth place. Every other field is the stored one |
| AstronautService.EmptyPatchKeepsRecord | internal/service/astronaut.go:143-166 | an update carrying nothing returns the stored record unchanged |
| AstronautService.MergeIsIdempotent | internal/service/astronaut.go:143-166 | merging the same update twice equals merging it once |
| AstronautService.BirthDateBlanksStatus | internal/service/astronaut.go:156-158 | an update carrying only a birth date wipes the stored status and drops the date |
| AstronautService.BirthPlaceIgnoredWhenStoredIsBlank | internal/service/astronaut.go:159-161 | with no stored birth place, an update carrying only a birth place is dropped |
| AstronautService.MergeIntended | internal/service/astronaut.go:143-166 | each of the seven merged fields, birth date included, adopts the incoming value when it is non-empty or non-zero and keeps the stored value when it is empty or zero; every other field is the stored one |
| AstronautService.MergeIntendedIsIdempotent | internal/service/astronaut.go:143-166 | the intended merge is idempotent |
| AstronautService.MergesAgreeAwayFromTheQuirks | internal/service/astronaut.go:143-166 | without an incoming birth date, and with the birth place not shadowed by the status test, both merges agree |
| AstronautService.Update | internal/service/astronaut.go:99-121 | only an admin identity may update; a failed baseline fetch writes nothing; once the fetch succeeds the merged record is always written, and on a valid table the update succeeds iff the database works and the merged record fits the column types; on success the merged record is returned and its columns stored |
| AstronautService.UpdateIntended | internal/service/astronaut.go:99-121 | the same pipeline with the intended merge stores the incoming birth date and birth place and never blanks the status; once the fetch succeeds the corrected merge is always written, and on a valid table it succeeds iff the database works and the merged record fits the column types |
| AstronautService.UpdatesAgreeAwayFromTheQuirks | internal/service/astronaut.go:109-120 | away from the quirks both update pipelines give the same reply and table |
| AstronautService.Delete | internal/service/astronaut.go:123-141 | only an admin identity may delete; the row is gone afterwards |
| AstronautService.OnlyAdminsMutate | internal/service/astronaut.go:42-131 | a non-admin is refused create, update and delete, whatever the payload, with the table untouched |
| AstronautService.DeleteOfMissingIdSucceeds | internal/service/astronaut.go:133-140 | deleting an absent id reports success |
| AstronautService.BlankNameIsRejected | internal/service/astronaut.go:48-60 | an admin creating a record with a blank name gets a validation error for the name, and nothing is stored |
| Middleware.APIKeyValidation | internal/transport/middleware/middleware.go:61-101 | the key search runs iff the key is non-empty and well-formed; the request is refused with one 401 "Permission denied" or reaches the next handler exactly once, carrying the user the search found |
| Middleware.BadKeyNeedsNoLookup | internal/transport/middleware/middleware.go:64-78 | an empty or malformed key is refused with no search |
| Middleware.RefusalsAreIndistinguishable | internal/transport/middleware/middleware.go:66-92 | all refusals write the same status and error text |
| Middleware.GateAdmitsExactlyKeyHolders | internal/transport/middleware/middleware.go:83-97 | backed by the user table, the gate admits exactly the holder of a well-formed key |
| Middleware.Wrap | internal/transport/middleware/middleware.go:30-32 | a fresh wrapper has forwarded nothing and its status is the zero int |
| Middleware.Status | internal/transport/middleware/middleware.go:34-36 | on a wrapper whose status agrees with its writes, the status is the last code forwarded, or 0 before any |
| Middleware.WriteHeader | internal/transport/middleware/middleware.go:38-41 | the code is both remembered and passed to the wrapped writer, after the earlier ones; afterwards `Status` reports it |
| Middleware.StatusIsLastCode | internal/transport/middleware/middleware.go:30-41 | `Status` is the last code written, or 0 before any write; every code is forwarded in order |
| Database.ToLower | internal/database/database.go:188-200 | the result has no capitals and differs from the input only where a capital became its small letter |
| Database.ToLowerFixesLowercase | internal/database/database.go:188-200 | a string is unchanged by lowercasing iff it has no capitals; lowercasing is idempotent |
| Database.FormatStrsToLower | internal/database/database.go:188-200 | exactly the eleven text fields are lowercased; every other field, the two dates included, is unchanged |
| Database.FormatIsIdempotent | internal/database/database.go:188-200 | lowercasing a record twice equals lowercasing it once |
| Database.Split | internal/database/database.go:172-175 | there is at least one piece, no piece holds the separator, and joining the pieces gives the string back |
| Database.JoinIsInjective | internal/database/database.go:172-175 | separator-free pieces are determined by their join |
| Database.SplitJoinRoundTrip | internal/database/database.go:172-175 | splitting a join of separator-free pieces gives back exactly those pieces |
| Database.NormaliseSeedRow | internal/database/database.go:169-175 | the row is the lowercased record (every text field lowercased, every other field untouched) with only the four list fields set |
| Database.SeedListsJoinBack | internal/database/database.go:172-175 | each list field is non-empty and separator-free and joins back, with its separator, to the lowercased delimited string |
| Database.SeedListsAreLowercase | internal/database/database.go:170-175 | lowercasing precedes splitting, so every list element is lowercase |
| Database.Accepted | internal/database/database.go:169-183 | the number of records inserted before the first refusal: every earlier record fits and inserting works, and the record at that position, if any, is refused |
| Database.Drawn | internal/database/database.go:169-183 | a seeding run uses up one SERIAL id per accepted record, plus one when the refused record reached the server |
| Database.InsertAll | internal/database/database.go:169-183 | the loop succeeds iff every record is accepted; the next id advances by the ids drawn, which counts a refused record the server saw; there is one insert call per record up to and including the refused one |
| Database.InsertAllStoresAt | internal/database/database.go:169-183 | each accepted record's columns are stored under consecutive ids from the next id, even when a later insert is refused, because each insert commits on its own |
| Database.InsertAllKeepsRows | internal/database/database.go:169-183 | earlier rows are kept, and no row appears outside the accepted ids |
| Database.Populate | internal/database/database.go:146-186 | seeding succeeds iff every normalised row is accepted, and no row appears but the earlier ones and the accepted seed rows |
| Database.PopulateDrawsIds | internal/database/database.go:146-186 | after seeding, the next id has advanced by the ids drawn: one per accepted row, plus one for a refused row the server saw |
| Database.PopulateStoresRow | internal/database/database.go:169-183 | the columns of every accepted seed row are stored, normalised, under its id, whether or not a later row is refused |
| Database.Init | internal/database/database.go:44-68 | the steps run in order (user table, astronaut table, count, seed) and the first failure ends start-up; the seed step runs iff the table is empty; the table left behind is the seeded one, partial or complete, once inserting began, and the original otherwise |
| Database.SeedingStoresEachRow | internal/database/database.go:55-65 | after a successful start-up on an empty table, the columns of each CSV row are stored, normalised, under its consecutive id |
| Database.PartialSeedIsNeverCompleted | internal/database/database.go:55-65 | a seed refused part-way fails start-up but leaves a non-empty table; the next start-up counts those rows, does not seed, and leaves the table as it is |
| Database.PartialSeedExample | internal/database/database.go:104 | of a blank row and a row whose birth place is 51 characters, the table accepts exactly the first |

## Left out

- HTTP handlers, routing, JSON encoding, server wiring, configuration and logging. `HTTPLogger` reads the recorded status only to log it.
- SQL text and drivers. Each store is an abstract table.
- Context timeouts and cancellation. They have no sequential meaning.
- bcrypt, UUID generation, UUID parsing and the clock. Each is a parameter: `Credentials.hash`, `Credentials.freshKey`, `Credentials.now`, and `isUuid` in the gate.
- The status, date and gender rules used by astronaut creation. They are named in the astronaut service, but this code does not define them. They are parameters (`FieldFormats`) with no invented definition.
- The key search of the user service that the gate calls. The gate's interface does not declare it. The gate takes it as a parameter, and `Middleware.StoreSearch` shows one backed by the user table.
- Stores.SearchApiKey: no code in this model's sources implements the key search. Returning the lowest-id row that holds the key is a modelling choice; with unique keys it is the only row.
- Reading and decoding the CSV file. `Database.Env.csv` is either the decoded rows or `None` when the file cannot be read.
- Password reset and API-key rotation. No code implements them.
- Stores.Listing: rows are listed in ascending id order. The SQL orders astronauts by name and users by surname; collation is not modelled.
- Stores.Get: on the astronaut table a missing row is a not-found error. The SQL store returns no record and no error, and update would then dereference nothing. The model follows the evident intent.
- Stores.UpdateUser: modelled as the store evidently means. The SQL text of the user update lacks a comma between two columns, so the database would refuse it as written.
- Stores.UpdateAstronaut: modelled as the store evidently means. The astronaut update (internal/store/astronaut.go:75) names the reserved column `group` unquoted, so the database would refuse it as written.
- Stores.CreateAstronaut: returns the stored record. The store interface declares an integer result, but the service uses a record.
- Validation.Classify: the upper, lower, number and punctuation-or-symbol classes use ASCII ranges. Other Unicode letters, digits and symbols are in no class.
- Database.ToLower: lowercases ASCII capitals only. Unicode case mapping is not modelled.
- Validation.Validate: Go visits a map in an unspecified order. The model takes the fields as a sequence, so it fixes one order. The example lemmas hold for every order.
- Validation.Apply: a rule key missing from the table would call a nil rule. `Covered` makes this a precondition of `Validate`.
- UserService.Get: only an admin may fetch a user, even their own record (internal/service/user.go:122-124 refuses every non-admin).
- UserService.Update: the code stores the incoming record as is, with no comparison against the stored user; internal/service/user.go:160 leaves a TODO to validate and compare.
- Validation.Apply: Password gives one error, whatever classes are missing (internal/validation/validate.go:108-110).
- Stores.CreateUser: a value longer than its VARCHAR column whose extra characters are all spaces is cut to the width and stored by PostgreSQL; the model refuses every over-long value.
- Stores.CreateAstronaut: the same trailing-space truncation is not modelled. The model also has the server draw the SERIAL id before it checks the lengths, as the executor does; a plan that folds the length check while planning would refuse the row without drawing an id.

## Findings

| source | as written | input that shows it | evidently intended | confidence | as-written member | corrected member |
|---|---|---|---|---|---|---|
| internal/service/astronaut.go:156-158 | the birth-date step tests the incoming birth date but assigns the incoming status | stored status `active`; an update carrying only birth date `1950-01-01` leaves status `""` and the old birth date | adopt a non-empty incoming birth date and leave the status alone | high, not executed | AstronautService.BirthDateBlanksStatus | AstronautService.MergeIntended |
| internal/service/astronaut.go:159-161 | the birth-place step compares the incoming status with the stored birth place | stored birth place `""`; an update carrying only birth place `houston, tx` keeps `""` | adopt a non-empty incoming birth place whenever it differs from the stored one | high, not executed | AstronautService.BirthPlaceIgnoredWhenStoredIsBlank | AstronautService.MergeIntended |

`AstronautService.Update` runs the merge as written. `AstronautService.UpdateIntended` runs the same pipeline with the corrected merge. `AstronautService.UpdatesAgreeAwayFromTheQuirks` proves that the two pipelines agree on every input that does not trigger either finding.
