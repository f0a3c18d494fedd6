# Plant catalog backend: a Dafny model

This project models the backend of a plant catalog. Visitors browse the
plant records, and administrators log in to create, edit and delete them.
The model covers four parts of the backend:

- **Public plant endpoints** (`backend/routes/plants.js`):
  - the listing, with its habit and family selectors, a case-insensitive
    search over three names, newest-first order, and skip/limit
    pagination with a page count;
  - the statistics: the total, the habit groups and the ten largest
    families;
  - fetching one plant by id;
  - the sorted, duplicate-free list of families.
- **Administrator endpoints** (`backend/routes/admin.js`):
  - the JSON-or-comma reading of `uses`;
  - create;
  - the partial update, where a truthy value replaces the field and
    anything else keeps it;
  - delete, together with the removal of local image files;
  - the dashboard, including the loop that turns habit groups into an
    object.
- **The plant schema** (`backend/models/Plant.js`): the required fields,
  the habit enum, the trimmed fields, the empty-string defaults and the
  timestamps.
- **Administrator accounts** (`backend/routes/auth.js`): registration
  with its duplicate check, login by username or email, and `/me`.

Modules:

| file | module | contents |
|---|---|---|
| `wrappers.dfy` | `Wrappers` | `Option` and `Result` |
| `text.dfy` | `Text` | JavaScript `trim`, `split`, ASCII lower-casing, substring search and lexical order |
| `json_array.dfy` | `JsonArray` | the JSON text of an array of strings, with its parser and both round trips |
| `plant_schema.dfy` | `PlantSchema` | the stored `Plant`, the `Draft` a save receives, `Normalize` and the invariant `Valid` |
| `plant_queries.dfy` | `PlantQueries` | the public read endpoints, as functions over the collection |
| `plant_admin.dfy` | `PlantAdmin` | the administrator endpoints |
| `auth.dfy` | `Auth` | administrator accounts |

How the model represents the system:

- The collection is a sequence of documents in natural (insertion) order.
- `PlantAdmin.PlantRepository` is a class. Its fields are the collection,
  the next id and the set of removed upload files. Its methods change them
  in place and keep an invariant:
  - every stored plant is valid;
  - ids are unique;
  - no plant points at a removed or shared local file.
- `Auth.CredentialStore` is a class in the same way, for administrator
  accounts.
- Password hashing and comparison are functions the caller passes in.
- A signed token is represented by its claims.

## Model

| member | source | states |
|---|---|---|
| PlantSchema.ParseHabit | backend/models/Plant.js:19-23 | exactly the six habit names are accepted, case-sensitively; a result always names the string it was read from |
| PlantSchema.Normalize | backend/models/Plant.js:3-50 | the save succeeds iff these hold: the three names are defined and not blank; the habit is one of the six; the location is a non-empty string. A successful save gives a valid plant with trimmed names, trimmed uses, '' defaults and both timestamps. A failure carries at least one field error |
| PlantSchema.BadHabitRejected | backend/models/Plant.js:19-23 | a non-empty habit outside the enum fails the save with a `NotInEnum` error for `habit` |
| PlantSchema.NormalizeStored | backend/models/Plant.js:3-50 | re-saving a valid stored plant with its own values gives back the same plant, so the setters and defaults are idempotent |
| Text.Trim | backend/models/Plant.js:7 | the result has no surrounding whitespace; it is empty iff the input is all whitespace; it is never longer than the input; an already trimmed string is unchanged |
| Text.TrimSlice | backend/models/Plant.js:7 | the result is a slice of the input with only whitespace before and after it, so trim removes the outer whitespace and nothing else |
| Text.TrimUnique | backend/models/Plant.js:7 | conversely, a trimmed text surrounded only by whitespace is what trim returns; with TrimSlice this determines trim completely |
| Text.TrimAll | backend/models/Plant.js:24-27 | every item is trimmed, and the length is kept |
| Text.SplitPieces | backend/routes/admin.js:24 | there is one more piece than the text has separators, and no piece holds a separator |
| Text.JoinSplit | backend/routes/admin.js:24 | joining the pieces of a split with the separator gives back the text |
| Text.ContainsIff | backend/routes/plants.js:25-31 | a substring match holds iff the needle occurs at some position |
| Text.LexLessIrreflexive | backend/routes/plants.js:143 | the sort order never puts a string before itself |
| Text.LexLessTransitive | backend/routes/plants.js:143 | the sort order is transitive |
| Text.LexLessTotal | backend/routes/plants.js:143 | of two different strings, one sorts before the other |
| Text.LexLessAsymmetric | backend/routes/plants.js:143 | two strings never sort before each other |
| JsonArray.ParseEncode | backend/routes/admin.js:22 | parsing the JSON text of a list of plain strings gives back the list |
| JsonArray.EncodeParse | backend/routes/admin.js:22 | any text the parser accepts is the exact JSON encoding of what it returned, and every item it returned is plain |
| JsonArray.EncodeParseItems | backend/routes/admin.js:22 | any item text the reader accepts is the exact comma-separated encoding of the items it returned, of which there is at least one |
| PlantQueries.BuildFilter | backend/routes/plants.js:12-31 | a plant passes iff three conditions hold. If `habit` is truthy and not 'all', the plant has that habit. If `family` is truthy and not 'all', it has that family. If `search` is truthy, the search text occurs, ignoring case, in one of its three names |
| PlantQueries.Select | backend/routes/plants.js:35 | the result holds exactly the stored plants that match the filter |
| PlantQueries.SelectCounts | backend/routes/plants.js:35 | the find returns each matching document as many times as it is stored, and no other document; so the `total` of a listing is the number of matching documents |
| PlantQueries.CountMatchingSelect | backend/routes/plants.js:40 | the count query counts exactly the plants the find query returns |
| PlantQueries.SortNewest | backend/routes/plants.js:36 | the result is a permutation of the input, ordered by `createdAt` descending |
| PlantQueries.Window | backend/routes/plants.js:37-38 | the result is entry `skip + i` of the input for each `i`, and its length is the part of `[skip, skip+limit)` inside the input; it keeps the input's members and its newest-first order |
| PlantQueries.CeilDiv | backend/routes/plants.js:48 | the result is the least page count whose pages hold `n` items |
| PlantQueries.PagePlants | backend/routes/plants.js:33-38 | the page holds at most `limit` plants, newest first, and each is a stored, matching plant |
| PlantQueries.PageIsSlice | backend/routes/plants.js:33-38 | entry `i` of the page is entry `(page-1)*limit + i` of the matching plants sorted newest first |
| PlantQueries.PageLength | backend/routes/plants.js:33-38 | the page holds the part of `[(page-1)*limit, page*limit)` that lies inside the matching plants |
| PlantQueries.ListPlants | backend/routes/plants.js:8-50 | the answer holds that page of plants. `total` is the number of matching plants, `page` is the requested page (default 1), and `pages` is `ceil(total/limit)` (default limit 12) |
| PlantQueries.ListingSizes | backend/routes/plants.js:33-49 | `pages` is `ceil(n/limit)` and the page size is the part of the window inside the `n` matching plants |
| PlantQueries.PageSizeIff | backend/routes/plants.js:37-48 | for any count `n`, the window at `(page-1)*limit` is non-empty iff `page` is at most `ceil(n/limit)` |
| PlantQueries.PageNonEmptyIff | backend/routes/plants.js:33-49 | a page holds plants iff its number is at most `pages` |
| PlantQueries.TwentyFiveAtTwelve | backend/routes/plants.js:33-49 | 25 matching plants at `limit=12` make 3 pages: page 1 holds 12 plants, page 3 holds 1 and page 4 holds none |
| PlantQueries.TulsiSearch | backend/routes/plants.js:25-31 | "Tulsi (Holy Basil)" is found by `search=tulsi` and not by `search=zzz` |
| PlantQueries.FindById | backend/routes/plants.js:111-118 | the plant found is stored under that id; the lookup fails (404) iff no stored plant has that id |
| PlantQueries.FindByIdStored | backend/routes/plants.js:111 | with unique ids, every stored plant is found by its own id |
| PlantQueries.FamilyList | backend/routes/plants.js:139-143 | the list is strictly ascending, so it is sorted and has no duplicates, and it names exactly the families present |
| PlantQueries.FamilyListCount | backend/routes/plants.js:139-143 | the list has one entry per distinct family |
| PlantQueries.HabitCountsSum | backend/routes/plants.js:66-75 | the six habit counts add up to the number of plants |
| PlantQueries.HabitGroups | backend/routes/plants.js:68-75 | a habit has a group iff some plant has it; the group's count is that number of plants; no habit has two groups; the counts add up to the total |
| PlantQueries.FamilyCounts | backend/routes/plants.js:77-83 | every family present has a group with its count, every group is such a family, and no family has two groups, as `$group` produces |
| PlantQueries.TopFamilies | backend/routes/plants.js:77-86 | the result has at most ten groups, largest first, each a present family with its count, and no family listed twice. A family left out means ten are listed, and none of the ten is smaller than it |
| PlantQueries.PlantStats | backend/routes/plants.js:64-95 | `total` is the number of plants and equals the sum of the habit counts; `topFamilies` has at most ten entries, largest first; `byHabit` is the habit grouping and `topFamilies` the family ranking, whose properties are stated by HabitGroups and TopFamilies |
| PlantAdmin.ParseUses | backend/routes/admin.js:19-26 | the update reads `uses` the same way (lines 80-87). A missing value stays missing and an array passes through. A string is read as JSON first. When that fails, the result is the pieces of the string split at its commas, each trimmed: one more piece than it has commas, none containing a comma |
| PlantAdmin.EmptyUses | backend/routes/admin.js:24 | an empty `uses` string becomes one empty item |
| PlantAdmin.UsesRoundTrip | backend/routes/admin.js:22 | what the admin form sends, the JSON text of the list, is read back as the same list |
| PlantAdmin.UsesFallbackLossless | backend/routes/admin.js:24 | when no piece has whitespace around it, the comma fallback loses nothing |
| PlantAdmin.CreateRecord | backend/routes/admin.js:28-46 | the create succeeds iff these hold: the names are given and not blank; the habit is in the enum; the location is non-empty. The new plant is valid and carries the submitted trimmed names, habit, location and uses. `createdBy` is the administrator. The image is the upload, else ''. Both timestamps are the current time. A failure carries at least one error |
| PlantAdmin.CreateBadHabit | backend/routes/admin.js:45-59 | a create with a habit outside the enum fails and reports that habit |
| PlantAdmin.CreateThenFind | backend/routes/admin.js:45-46 | fetching a created plant by its id returns it, with the three submitted names trimmed, the submitted habit and the submitted location |
| PlantAdmin.ApplyUpdate | backend/routes/admin.js:89-113 | a saved update is valid and keeps the id, `createdAt` and `createdBy`. Its image is the new file, else the old image. `updatedAt` moves to now only when a stored value changed. A failure carries at least one error |
| PlantAdmin.UpdateAccepted | backend/routes/admin.js:89-113 | an update of a stored plant succeeds iff two things hold: no truthy name is blank, and a truthy habit is in the enum |
| PlantAdmin.UpdateMerges | backend/routes/admin.js:90-97 | each of the eight fields takes the sent value when it is truthy (trimmed where the schema trims), and otherwise keeps its stored value; `uses` is replaced whenever it is sent |
| PlantAdmin.EmptyUpdateKeeps | backend/routes/admin.js:90-97 | an update that sends nothing leaves the plant, including `updatedAt`, unchanged |
| PlantAdmin.UpdateDescriptionOnly | backend/routes/admin.js:90-97 | sending only a description changes the description and nothing else, except `updatedAt` when the description differs |
| PlantAdmin.EmptyStringsKeep | backend/routes/admin.js:90-97 | sending empty strings keeps every stored value |
| PlantAdmin.ReleasedImage | backend/routes/admin.js:100-107 | an update releases the prior image exactly when a new file is sent and the prior image is under `/uploads` |
| PlantAdmin.LocalImage | backend/routes/admin.js:144-150 | a delete releases the plant's image exactly when it is under `/uploads` |
| PlantAdmin.ReplaceById | backend/routes/admin.js:113 | the collection keeps its length and its ids; the plant of that id becomes `q`; every other plant stays |
| PlantAdmin.ReplaceMembers | backend/routes/admin.js:113 | after the replacement every plant is `q` or a stored plant of another id, every stored plant of another id is still there, and `q` is there when its id was stored |
| PlantAdmin.FindReplaced | backend/routes/admin.js:113 | after an update, the id finds the new plant and every other id finds what it found before |
| PlantAdmin.RemoveById | backend/routes/admin.js:152 | the result holds exactly the stored plants with another id, and unique ids stay unique |
| PlantAdmin.RemoveKeepsOthers | backend/routes/admin.js:152 | removing one id does not change what any other id finds |
| PlantAdmin.RemoveLength | backend/routes/admin.js:135-152 | with unique ids, removing a stored id shrinks the collection by exactly one |
| PlantAdmin.RemoveExactlyOne | backend/routes/admin.js:135-152 | deleting a stored id removes exactly one plant: that id is no longer found, the others are found as before, and the collection shrinks by one |
| PlantAdmin.Recent | backend/routes/admin.js:177-180 | the result holds the five newest plants (all plants when fewer), newest first, each a summary of a stored plant. A plant not shown means five are shown, and none of them is older than it. With unique ids, the plants shown are different plants |
| PlantAdmin.HabitStatsOf | backend/routes/admin.js:192-195 | the loop gives the object that writing each group, in order, produces |
| PlantAdmin.StatsMapDistinct | backend/routes/admin.js:192-195 | when no habit has two groups, the object maps exactly the grouped habits, each to its count |
| PlantAdmin.DashboardHabits | backend/routes/admin.js:182-195 | the habit statistics name exactly the habits present, each with its number of plants, and they add up to the total |
| PlantAdmin.UpdateAsWritten | backend/routes/admin.js:66-113 | an unknown id gives 404 and changes nothing. For a found plant, the released image is removed whether or not the save then succeeds |
| PlantAdmin.UpdateCorrected | backend/routes/admin.js:66-128 | the handler with the image removed after the save. The result is 404 iff the id is not stored. Any failure leaves the collection and the removed files as they were. For a stored id, the update succeeds iff ApplyUpdate accepts the merge, and the plant written back is ApplyUpdate's result; a failed save is answered 500 "Server error", an unknown id 404 "Plant not found". A success replaces the plant of that id and removes the prior image the update releases |
| PlantAdmin.CorrectedMatchesWritten | backend/routes/admin.js:100-113 | the corrected handler gives the same answer and the same collection as the handler as written. It removes the same files on a success or a 404, and never more files |
| PlantAdmin.UnlinkBeforeFailedSave | backend/routes/admin.js:100-113 | from a state without dangling images, an update with a new file and a habit outside the enum fails. The plant is kept pointing at its old local image, which the handler has already removed |
| PlantAdmin.CreateOutcome | backend/routes/admin.js:28-61 | the create handler. It fails iff the record cannot be built, and then answers 500 "Server error" and keeps the collection. On success the plant appended under the next id is CreateRecord's record. No file is removed |
| PlantAdmin.AppendFind | backend/routes/admin.js:45-46 | a plant appended under an id above every stored id is found by that id |
| PlantAdmin.CreateKeepsInvariant | backend/routes/admin.js:45-46 | appending a valid plant under the next id with a fresh upload keeps the repository invariant |
| PlantAdmin.UpdateKeepsInvariant | backend/routes/admin.js:100-113 | replacing a plant with a valid one of the same id keeps the invariant, once the released image is counted as removed |
| PlantAdmin.CreateOutcomeKeepsInvariant | backend/routes/admin.js:28-61 | with a fresh upload, the create handler keeps the repository invariant, advancing the next id exactly when it succeeds |
| PlantAdmin.UpdateCorrectedKeepsInvariant | backend/routes/admin.js:66-128 | with a fresh upload, the corrected update handler keeps the repository invariant |
| PlantAdmin.DeleteKeepsInvariant | backend/routes/admin.js:144-152 | removing a plant and its local image keeps the invariant |
| PlantAdmin.PlantRepository.Create | backend/routes/admin.js:14-61 | the new collection, removed files and answer are those of `CreateOutcome` on the old state. The next id advances exactly on success, and the invariant is kept |
| PlantAdmin.PlantRepository.Update | backend/routes/admin.js:66-128 | the new collection, removed files and answer are those of `UpdateCorrected` on the old state. The next id is unchanged, and the invariant is kept |
| PlantAdmin.PlantRepository.Delete | backend/routes/admin.js:133-166 | an unknown id gives 404 and changes nothing. Otherwise the plant and its local image are removed, and the invariant is kept |
| PlantAdmin.PlantRepository.Dashboard | backend/routes/admin.js:171-205 | the dashboard shows the plant count, the number of distinct families, the five most recent plants, and habit statistics that name exactly the habits present with their counts, which add up to the plant count |
| Auth.FindByIdentifier | backend/routes/auth.js:67-69 | the lookup finds nobody iff no administrator has the identifier as username or email; otherwise it finds the first one that does |
| Auth.Login | backend/routes/auth.js:62-102 | every failure is 400 "Invalid credentials". Login succeeds iff an administrator answers to the identifier and the password matches its hash. The token's subject is that administrator, with a 7-day lifetime, and the answer shows it without the hash |
| Auth.FailuresAlike | backend/routes/auth.js:70-84 | an unknown identifier and a wrong password get the same answer |
| Auth.FindAdminById | backend/routes/auth.js:116-125 | the administrator found carries that id; none is found iff no stored administrator has it |
| Auth.SessionResolves | backend/routes/auth.js:87-125 | a token from a login resolves to the administrator that `/me` then shows as the login's answer |
| Auth.RegisterAsWritten | backend/routes/auth.js:15-30 | registration is refused, with 400 "Admin already exists", iff an administrator has the same email or the same username; otherwise exactly one administrator is appended with the hash of the password |
| Auth.UsernameShadowedByEmail | backend/routes/auth.js:15-16 | an administrator whose username is another's email is let in by the written check, and then cannot log in with that username, because login (lines 67-69) finds the other administrator first |
| Auth.RegisterThenLogin | backend/routes/auth.js:24-30 | after a registration that passes the corrected check, login (lines 67-91) with the new username or email and the password gives a token for the new administrator |
| Auth.RegisterKeepsValid | backend/routes/auth.js:24-30 | appending an administrator under the next id, without a conflict, keeps ids unique and every identifier naming one administrator |
| Auth.CredentialStore.Register | backend/routes/auth.js:10-48 | a username or email already taken, as either field, is refused with "Admin already exists" and changes nothing. Otherwise exactly one administrator is appended under the next id and a session for it is returned. The invariant is kept |

## Left out

- Database execution is not modelled. Queries are functions over the collection. `ObjectId`s are natural numbers taken from a counter, and any failure of the database (the 500 answers other than a failed validation) is not modelled.
- The `search` text is matched as a literal substring. `$regex` metacharacters are not interpreted. Case folding is ASCII only.
- Strings are sequences of Unicode characters, compared by code point. JavaScript's `sort` compares UTF-16 code units, which orders characters above U+FFFF differently against characters from U+E000 to U+FFFF. That difference is not modelled, and no Unicode normalisation is done.
- The order in which `$group` returns its groups is not specified by the database. The model returns habit groups in enum order and family groups in ascending name order, so families with equal counts are listed alphabetically by the model's stable sort.
- `parseInt` of a non-numeric `page` or `limit` (NaN), and zero or negative values, are not modelled. The model takes `page` and `limit` as positive integers.
- `JSON.parse` is modelled only for compact arrays of plain strings (no escapes, no whitespace). Any other JSON text, an object or a number for instance, is read here by the comma fallback.
- Mongoose's casting of non-string values in the request body (numbers, arrays for string fields) is not modelled. The name, habit, location, map link and description fields are strings or absent; `uses` is a string, an array of strings, or absent.
- Password hashing (bcrypt) and token signing and verification (JWT) are represented by functions passed in and by the token's claims. `backend/models/Admin.js` and `backend/middleware/auth.js` are not part of this model. The authenticated administrator's id is a parameter of the admin operations. Missing, invalid or expired tokens (401) are therefore not modelled.
- Upload handling (multer, Cloudinary) is not modelled. The uploaded file's path is a parameter.
- PlantAdmin.PlantRepository.Create: requires that the uploaded path is fresh, which multer's generated names provide.
- PlantAdmin.PlantRepository.Update: requires that the uploaded path is fresh, which multer's generated names provide.
- The file system is not modelled. `existsSync` and `unlinkSync` are represented by the set of removed files. A failing `unlinkSync` is not modelled.
- The clock is a parameter (`now`).
- Each request is modelled as one atomic step. Overlapping requests are not modelled: two registrations that both pass the duplicate check of `backend/routes/auth.js:15` before either saves, or an update that reads the plant, then a concurrent delete, then the save at `backend/routes/admin.js:113`.
- Mongoose's `isModified` is approximated by comparing the saved values with the stored ones.
- The `success` and `message` fields of successful answers are not modelled.
- The text index on the three names is not modelled. The listing does not use it.
- `GET /health`, the server set-up and the frontend are not modelled.
- PlantAdmin.PlantRepository.Update: follows the corrected order, so the prior image is removed only after a successful save. The handler as written is `PlantAdmin.UpdateAsWritten` (see Findings).
- Auth.FindByIdentifier: returns the first administrator in insertion order that answers to the identifier. MongoDB does not promise any order for `findOne` with an `$or` query, which may run as a union of index scans. Which administrator wins when two answer is an assumption of the model, not something the source states.
- Auth.CredentialStore.Register: uses the corrected cross-field duplicate check. The check as written is `Auth.RegisterAsWritten` (see Findings).
- Auth.Me has no contract of its own. Its properties are stated through Auth.Login and Auth.SessionResolves.
- Where the code treats an empty string sent in an update as "not sent", the model follows the code.

## Findings

| source | as written | input that shows it | evidently intended | confidence | as-written member | corrected member |
|---|---|---|---|---|---|---|
| backend/routes/admin.js:100-113 | the prior local image is unlinked before `plant.save()`, which can still fail validation | a stored plant whose image is under `/uploads`, updated with a new file and `habit=Bush`: the save fails (500) and the stored plant still refers to the file just removed | remove the prior image only after the save has succeeded | medium, not executed | PlantAdmin.UpdateAsWritten, PlantAdmin.UnlinkBeforeFailedSave | PlantAdmin.UpdateCorrected, PlantAdmin.PlantRepository.Update, PlantAdmin.UpdateCorrectedKeepsInvariant |
| backend/routes/auth.js:15 | the duplicate check compares the new email only with emails and the new username only with usernames, while login (lines 67-69) matches the identifier against both | with `alice`/`alice@example.org` stored, registering username `alice@example.org` with email `bob@example.org` succeeds; two administrators now answer to `alice@example.org`, and whichever one `findOne` returns, the other cannot log in with it (the model returns `alice`, the first stored, and answers "Invalid credentials" to the new password) | refuse a username or email equal to either identifier of an existing administrator | low, not executed | Auth.RegisterAsWritten, Auth.UsernameShadowedByEmail | Auth.CredentialStore.Register, Auth.RegisterThenLogin |
