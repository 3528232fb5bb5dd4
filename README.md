# Hackathon team registration, check-in and meals

A model of the core of a hackathon registration system:
- an Express + MongoDB backend keeps one document per team, and scanning a team's QR code checks the team in and then marks its meals;
- a React console lets admins and volunteers register teams, edit them, search them and read the running figures.

The model covers six parts.

- **The Team schema** (`TeamSchema`).
  - The team document (`TeamSchema.Team`) and its members.
  - The `valid`/`invalid` flags for status, allotment and lunch/dinner/snacks.
  - What saving a document does: required and trimmed strings, enum checks, defaults, non-negative counters. This is `TeamSchema.Validate`, which turns a `TeamDraft` into a `Team` or refuses it. The two unique indexes on `teamId` and `name` are checked apart from it, by `TeamSchema.Clashes` and `TeamSchema.UniqueKeys`, when createTeam and updateTeam save a team.
- **Team ids** (`TeamIds`). The sequential `25xx` number band:
  - the `^25\d{2}$` pattern;
  - the two-digit zero padding;
  - the capacity of 99 numbers, 2501 to 2599.
- **The QR payload** (`QrCodec`). The payload built once at creation, written as a string, and the decoder the scanner reads it with.
- **The team handlers.**
  - Each handler is a specification function over the list of stored documents (`TeamRegistry`, `TeamScan`).
  - The five handlers that change the store (createTeam, updateTeam, deleteTeam, scanQRCode and updateFoodStatus) are also methods of the store class `TeamController.TeamStore`. Each method changes `docs` in place and is proved to return exactly what its specification function says.
  - The two read-only handlers, getAllTeams and getTeamById, are functions only: `TeamRegistry.SortNewestFirst` and `TeamRegistry.TeamById`.
  - Each method also keeps the store invariant: schema-valid teams, unique `teamId` and `name`, internal ids naming distinct ObjectIds, every team's code naming it, and at most 99 teams.
  - The handlers are createTeam, updateTeam, deleteTeam, getAllTeams, getTeamById, scanQRCode and updateFoodStatus.
- **Admin statistics and the user registry.**
  - The server statistics (`AdminController`).
  - The user registry: `UserManagement.UserStore` and its specification functions, plus the unrouted legacy createTeam.
- **The browser side.**
  - The string helpers (`Helpers`) and the JavaScript built-ins they use (`JsBuiltins`): trim, lower-casing, `includes`, `filter`, `splice`, `padStart`.
  - The team object as the API serialises it (`ClientView`).
  - The admin team list's edit dialog and search (`TeamList`, class `EditDialog`).
  - The registration form (`CreateTeamPage`, class `CreateTeamForm`).
  - The client-side statistics of the admin dashboard (`AdminDashboard`) and of the volunteers' dashboard (`TeamDashboard`).

Errors are a datatype (`Http.ApiError`) carrying the HTTP status each handler answers with: 400, 403, 404, 500 and 507. Each error also names which check failed.

The model ties the two halves together.
- The browser's figures are proved equal to the server's on the list the API returns.
- A saved, unchanged edit round-trips to the stored team.
- What the registration form sends is always accepted by createTeam, except when the id band is full or the name is already taken.

Behaviours of the code worth noting:
- A meal scan toggles the meal (`teamController.js:311`); it is not a one-way `invalid → valid` step.
- `allotment` is not a scan action. It is answered with 400 (`teamController.js:315-317`).
- updateTeam never rewrites `qrData` (`teamController.js:209-219`).
- updateTeam accepts an empty `members` list.
- The number band holds 99 teams (2501..2599), not 100. Number `00` is never allocated, and the 100th creation answers 507.
- getAdminStats counts `active` and `inactive` teams. Neither value is in the status enum, so both counts are always 0.
- The unrouted legacy createTeam can never store a team: `inactive` fails the enum and `qrData` is missing. Every call ends in 500.

## Model

| member | source | states |
|---|---|---|
| TeamSchema.ParseFlag | backend/models/Team.js:70-79 | a string is accepted as a status/allotment/meal flag exactly when it is 'valid' or 'invalid', and the parsed flag prints back as the same string |
| TeamSchema.ParseFlagName | backend/models/Team.js:20-36 | every flag's name parses back to that flag |
| TeamSchema.Flip | backend/controllers/teamController.js:311 | the toggle always yields the other flag |
| TeamSchema.FoodStatus.Set | backend/models/Team.js:20-36 | setting one meal gives it the new flag and leaves the other two meals as they were |
| TeamSchema.ParseMeal | backend/controllers/teamController.js:337-339 | a food type is recognised exactly when it is lunch, dinner or snacks, and names that meal |
| TeamSchema.RequiredTrimmed | backend/models/Team.js:44-53 | a required trimmed string is accepted exactly when it is present and not blank after trimming, and is stored trimmed |
| TeamSchema.CastFlag | backend/models/Team.js:70-79 | a missing flag defaults to 'invalid'; a given one must parse |
| TeamSchema.CastCount | backend/models/Team.js:54-68 | a counter is accepted exactly when it is missing or non-negative, and defaults to 0 |
| TeamSchema.CastMembers | backend/models/Team.js:3-18 | the member list is accepted exactly when every member is, and member i of the result is the cast of member i |
| TeamSchema.Validate | backend/models/Team.js:38-91 | a document the schema accepts is well formed (every rule of the schema holds) and keeps its teamId and createdAt |
| TeamSchema.CastMembersResave | backend/models/Team.js:3-18 | re-saving well-formed members gives them back unchanged |
| TeamSchema.ValidateResave | backend/models/Team.js:38-91 | re-saving a well-formed team gives back the same team (validation is idempotent on its results) |
| TeamSchema.UniqueAfterInsert | backend/models/Team.js:94-95 | adding a team whose teamId and name clash with no stored team keeps both unique indexes |
| TeamIds.TeamNumber | backend/controllers/teamController.js:21-29 | an id has a number exactly when it matches ^25\d{2}$, and that number is at most 99 |
| TeamIds.NumberOfFormat | backend/controllers/teamController.js:43 | a formatted id of any number up to 99 matches the pattern and reads back as that number |
| TeamIds.FormatOfNumber | backend/controllers/teamController.js:27-43 | formatting the number of a matching id gives back the id |
| TeamIds.WideNumberUnmatched | backend/controllers/teamController.js:39-43 | a number above 99 would not format to a 25xx id, which is why it is refused |
| TeamIds.FormatInjective | backend/controllers/teamController.js:43 | two numbers up to 99 with the same id are equal |
| TeamIds.LexOrderIsNumericOrder | backend/controllers/teamController.js:21-23 | on matching ids, the sort by teamId string descending is the order of their numbers |
| TeamIds.NextNumber | backend/controllers/teamController.js:20-35 | the next number is never below 1, and is last + 1 after a last team numbered up to 99 |
| QrCodec.ReadField | backend/controllers/teamController.js:87 | reading one escaped field consumes at least its terminator |
| QrCodec.ReadEscaped | backend/controllers/teamController.js:87 | an escaped field followed by its terminator reads back as that field, leaving the rest |
| QrCodec.SplitJoin | backend/controllers/teamController.js:87 | splitting the joined fields gives back the same fields |
| QrCodec.NoTerminatorNoField | backend/controllers/teamController.js:283-287 | text without a terminator holds no field |
| QrCodec.ParseMemberFields | backend/controllers/teamController.js:76-80 | the members written into the payload parse back to the same members |
| QrCodec.DecodeEncode | backend/controllers/teamController.js:72-87 | decoding an encoded payload gives back the whole payload |
| QrCodec.DecodeTeamIdOfEncode | backend/controllers/teamController.js:72-87 | reading only the teamId of an encoded payload gives its teamId |
| QrCodec.DecodeTeamIdAgrees | backend/controllers/teamController.js:283-290 | whenever the whole payload decodes, the teamId the scanner reads is the payload's |
| QrCodec.UnterminatedRejected | backend/controllers/teamController.js:283-287 | a non-empty text without a terminator is refused by both decoders |
| TeamRegistry.Teams | backend/controllers/teamController.js:130-132 | the teams of the store, one per document, in store order |
| TeamRegistry.FindFrom | backend/controllers/teamController.js:166-172 | the search finds the first matching document at or after the start, and finds none exactly when no document there matches |
| TeamRegistry.Find | backend/controllers/teamController.js:289-290 | a found index is inside the store |
| TeamRegistry.MaxTeamNumber | backend/controllers/teamController.js:21-29 | there is no last number exactly when no stored teamId matches the 25xx pattern; otherwise the last number belongs to some stored team and bounds every stored team's number |
| TeamRegistry.MaxIsLastInTeamIdOrder | backend/controllers/teamController.js:21-23 | the team holding the largest number is first in descending teamId order, as `sort({ teamId: -1 }).limit(1)` returns it |
| TeamRegistry.AllocatedIdIsFree | backend/controllers/teamController.js:43-51 | while the next number fits, its id is held by no stored team, so the collision guard never fires in sequential use |
| TeamRegistry.SequentialIds | backend/controllers/teamController.js:20-43 | in a store filled by sequential creations, team i holds id 25 followed by i + 1 padded to two digits |
| TeamRegistry.SequentialMax | backend/controllers/teamController.js:20-35 | in such a store the last number is the number of teams, or none when empty |
| TeamRegistry.SequentialAppend | backend/controllers/teamController.js:20-43 | appending the team numbered one past the count keeps the store sequential |
| TeamRegistry.Coerced | backend/controllers/teamController.js:58-62 | the member map keeps each member's name and collegeName and coerces isFromIIITS to a boolean |
| TeamRegistry.NewTeam | backend/controllers/teamController.js:54-69 | a new team that saves is well formed, has the generated teamId and the payload as qrData, status, allotment and every meal 'invalid', counters 0, and the trimmed name, leader and members of the request, each isFromIIITS a boolean |
| TeamRegistry.CoercedMembersCast | backend/controllers/teamController.js:58-62 | the saved members of a request are its members, trimmed, with isFromIIITS coerced |
| TeamRegistry.CreateMissingFields | backend/controllers/teamController.js:12-17 | createTeam answers 400 for missing fields exactly when name or leader is falsy or members is not a non-empty array |
| TeamRegistry.CreateExhausted | backend/controllers/teamController.js:39-42 | once team 2599 exists, a complete request answers 507 and stores nothing, even when lower numbers are free |
| TeamRegistry.CreateAllocates | backend/controllers/teamController.js:20-51 | a complete request never meets the 500 collision, and a created team's id is the formatted next number, between 1 and 99 |
| TeamRegistry.CreateSteps | backend/controllers/teamController.js:54-118 | with a free number, createTeam is: the schema's validation error (400), else the unique-index error (400), else the new team |
| TeamRegistry.CreateIsSequential | backend/controllers/teamController.js:20-43 | creations from empty give 2501, 2502, … with no gaps: on a sequential store the created team takes id count + 1, and the store stays sequential |
| TeamRegistry.SequentialNextNumber | backend/controllers/teamController.js:20-39 | on a sequential store with room, the next number is the count + 1 |
| TeamRegistry.SequentialNext | backend/controllers/teamController.js:43 | a team with id count + 1 extends a sequential store |
| TeamRegistry.CreateInitialState | backend/controllers/teamController.js:54-69 | a created team starts with status, allotment and every meal 'invalid', zero counters, the creation time, and the trimmed name, leader and members of the request |
| TeamRegistry.CreateQrRoundTrip | backend/controllers/teamController.js:72-90 | decoding a created team's qrData gives back its payload: the assigned teamId, the request's untrimmed name and leader, and status 'invalid' |
| TeamRegistry.UpdateNotFoundFirst | backend/controllers/teamController.js:166-172 | an unknown teamId answers 404 whatever the body holds |
| TeamRegistry.UpdateChecks | backend/controllers/teamController.js:175-206 | for a found team: a falsy name or leader answers 400, then a non-array members answers 400; a success had name, leader, complete members, and a status in the enum when one was given; an empty members list passes the member check |
| TeamRegistry.UpdateOverwrites | backend/controllers/teamController.js:209-222 | a successful update is the stored team with the body's fields applied as updateTeam assigns them |
| TeamRegistry.PatchKeeps | backend/controllers/teamController.js:209-219 | name and leader are always overwritten (trimmed); teamId, qrData, allotment, the counters and createdAt are kept |
| TeamRegistry.PatchStatus | backend/controllers/teamController.js:201-211 | a given status replaces the old one; a falsy one keeps it |
| TeamRegistry.PatchMembers | backend/controllers/teamController.js:183-218 | a given member list replaces the old one member by member (trimmed, isFromIIITS coerced); otherwise the members are kept |
| TeamRegistry.PatchFood | backend/controllers/teamController.js:219 | a given foodStatus replaces the whole sub-document (each meal given or defaulted); otherwise it is kept |
| TeamRegistry.RemoveAt | backend/controllers/teamController.js:253-257 | removal drops exactly the document at the index and keeps the others in order |
| TeamRegistry.DeleteAnswers | backend/controllers/teamController.js:245-257 | deleteTeam answers 400 exactly for a malformed id, 404 exactly for a well-formed id whose ObjectId no document has, and succeeds exactly when some document's id names the same ObjectId, whatever the case of its hex letters |
| TeamRegistry.DeleteRemovesExactlyOne | backend/controllers/teamController.js:253-257 | deletion removes exactly one document, every other document remains, and when no two ids name the same ObjectId the id is gone |
| TeamRegistry.TeamById | backend/controllers/teamController.js:149-157 | getTeamById succeeds exactly when some team has the teamId and returns that stored team; otherwise 404 |
| TeamRegistry.SameObjectIdSameDelete | backend/controllers/teamController.js:245-257 | two ids naming the same ObjectId, such as its upper-case and lower-case hex, get the same answer from deleteTeam: the same 400, the same 404 or the same deleted team |
| TeamRegistry.DeletedTeamIsGone | backend/controllers/teamController.js:240-264 | after a deletion the deleted team's teamId is no longer found |
| TeamRegistry.InsertNewest | backend/controllers/teamController.js:132 | inserting into the sorted list adds exactly that one document |
| TeamRegistry.InsertNewestKeepsOrder | backend/controllers/teamController.js:132 | insertion keeps the list newest first |
| TeamRegistry.ConsNewest | backend/controllers/teamController.js:132 | a document no older than the rest can head a newest-first list |
| TeamRegistry.SortNewestFirst | backend/controllers/teamController.js:128-146 | getAllTeams lists a permutation of the store, ordered by createdAt descending |
| TeamScan.FoodOrDefault | backend/controllers/teamController.js:298-300 | a missing foodStatus reads as all meals 'invalid'; a present one as itself |
| TeamScan.ToggleMeal | backend/controllers/teamController.js:303-314 | a meal toggle flips the named meal, keeps the other two, creates the sub-document if missing, and changes no other field |
| TeamScan.CheckInFromInvalid | backend/controllers/teamController.js:293-302 | check-in of an 'invalid' team succeeds, sets status 'valid', adds an all-'invalid' foodStatus only when it is missing, and changes nothing else |
| TeamScan.CheckInOnce | backend/controllers/teamController.js:293-302 | check-in succeeds exactly from 'invalid'; a second check-in answers 400 |
| TeamScan.MealScan | backend/controllers/teamController.js:303-314 | a meal scan toggles the meal of a checked-in team and answers 400 for one not checked in |
| TeamScan.OtherActionsRejected | backend/controllers/teamController.js:315-317 | every action other than check-in, lunch, dinner and snacks answers 400 |
| TeamScan.AllotmentIsNotAnAction | backend/controllers/teamController.js:315-317 | the 'allotment' action answers 400, so no scan sets allotment |
| TeamScan.ScanKeepsTheRest | backend/controllers/teamController.js:293-321 | a successful scan changes only status and foodStatus, never qrData or allotment, and keeps the team well formed |
| TeamScan.FoodOnlyAfterCheckIn | backend/controllers/teamController.js:293-314 | no successful scan of a team not yet checked in changes a meal |
| TeamScan.ToggleTwice | backend/controllers/teamController.js:311 | toggling a meal twice restores it, and restores the whole team when it had a foodStatus |
| TeamScan.UnreadableQrRejected | backend/controllers/teamController.js:283-287 | a payload the codec cannot decode answers 400 before any lookup |
| TeamScan.UnknownFoodTypeRejected | backend/controllers/teamController.js:337-339 | updateFoodStatus answers 400 for a food type outside the three meals before any lookup |
| TeamScan.DirectToggle | backend/controllers/teamController.js:341-358 | updateFoodStatus succeeds exactly for a found, checked-in team, and then toggles the meal |
| TeamScan.ScanAgreesWithDirectUpdate | backend/controllers/teamController.js:303-358 | a meal scan and the direct update of the same meal on the same team give the same answer |
| TeamScan.FindAfterReplace | backend/controllers/teamController.js:321 | saving a team back under its teamId leaves the lookup unchanged |
| TeamScan.DirectToggleTwice | backend/controllers/teamController.js:334-358 | applying updateFoodStatus twice succeeds both times and restores the meal |
| TeamScan.ScanOfStoredCode | backend/controllers/teamController.js:279-331 | scanning a stored team's own code acts on that team |
| TeamController.UniqueAfterReplace | backend/models/Team.js:94-95 | replacing a team by one that clashes with no other keeps teamId and name unique |
| TeamController.UniqueAfterRemove | backend/models/Team.js:94-95 | removing a team keeps teamId and name unique |
| TeamController.AppendKeepsValid | backend/controllers/teamController.js:92 | appending a stored-shape team with a fresh internal id and no clash keeps the store invariant |
| TeamController.SameKeysNoClash | backend/controllers/teamController.js:321 | a team saved back with its own teamId and name clashes with no other team |
| TeamController.ReplaceKeepsValid | backend/controllers/teamController.js:222 | replacing a team by a stored-shape team with no clash keeps the store invariant |
| TeamController.RemoveKeepsValid | backend/controllers/teamController.js:253 | removing a document keeps the store invariant |
| TeamController.TeamStore.constructor | backend/models/Team.js:97 | a new store is empty and valid |
| TeamController.TeamStore.AtMostCapacity | backend/controllers/teamController.js:39-43 | a valid store never holds more than 99 teams |
| TeamController.TeamStore.FindTeam | backend/controllers/teamController.js:166 | the scan over the store returns the first document matching the key |
| TeamController.TeamStore.LastTeamNumber | backend/controllers/teamController.js:21-35 | the loop over the store computes the largest 25xx number |
| TeamController.TeamStore.CreateTeam | backend/controllers/teamController.js:7-125 | createTeam answers as its specification, appends the new document only on success, leaves the store unchanged on every error, and keeps the invariant |
| TeamController.TeamStore.UpdateTeam | backend/controllers/teamController.js:160-237 | updateTeam answers as its specification, on success replaces only the found document (keeping its internal id), otherwise changes nothing, and keeps the invariant |
| TeamController.TeamStore.DeleteTeam | backend/controllers/teamController.js:240-264 | deleteTeam answers as its specification, on success removes exactly the found document, otherwise changes nothing |
| TeamController.TeamStore.ScanQRCode | backend/controllers/teamController.js:279-331 | scanQRCode answers as its specification, on success replaces only the scanned team, otherwise changes nothing |
| TeamController.TeamStore.UpdateFoodStatus | backend/controllers/teamController.js:334-368 | updateFoodStatus answers as its specification, on success replaces only that team, otherwise changes nothing |
| AdminController.FoldIsSum | backend/controllers/adminController.js:13-14 | the reduce over teams adds the members lengths of all teams |
| AdminController.StatusOutsideEnum | backend/controllers/adminController.js:9-10 | no team has a status outside 'valid'/'invalid', so counting one gives 0 |
| AdminController.GetAdminStats | backend/controllers/adminController.js:5-30 | totalTeams is the number of teams, approvedTeams and pendingTeams are always 0, totalParticipants is the sum of member counts |
| AdminController.ParticipantsAppend | backend/controllers/adminController.js:13-14 | a new team adds its member count to the participants |
| AdminController.MealField | backend/controllers/adminController.js:43-48 | reading a meal name the schema does not have (breakfast) gives nothing |
| AdminController.FieldTest | backend/controllers/adminController.js:43-48 | the loop's test on a meal field is the served test for that meal |
| AdminController.GetFoodStats | backend/controllers/adminController.js:33-64 | every bucket's total is the number of teams, served counts teams whose meal is 'valid' (so served ≤ total), and breakfast served is always 0 |
| AdminController.ToggleMovesOneCount | backend/controllers/teamController.js:354 | toggling one team's meal moves that meal's served count by exactly one and leaves the other meals' counts alone |
| UserManagement.ParseRole | backend/controllers/userManagementController.js:18-23 | a role is accepted exactly when it is 'admin' or 'volunteer' |
| UserManagement.CreateUserChecks | backend/controllers/userManagementController.js:5-56 | a non-admin caller gets 403, then a bad role gets 400, then a taken username gets 400; success happens exactly when all three pass and returns the new id, username and role |
| UserManagement.CreateUserTwice | backend/controllers/userManagementController.js:26-32 | a username cannot be created twice |
| UserManagement.AllUsers | backend/controllers/userManagementController.js:59-82 | getAllUsers refuses non-admins with 403 and otherwise lists every user's id, username, role and creator, without the password |
| UserManagement.ListingAfterCreate | backend/controllers/userManagementController.js:35-49 | after a creation the listing is the old listing plus the new user, created by the caller |
| UserManagement.UserStore.constructor | backend/controllers/userManagementController.js:35 | a new user store is empty and valid |
| UserManagement.UserStore.ExistsUsername | backend/controllers/userManagementController.js:26 | the loop finds a user with the username exactly when one exists |
| UserManagement.UserStore.CreateUser | backend/controllers/userManagementController.js:5-56 | createUser answers as its specification, on success appends exactly the new user, and otherwise creates nothing |
| UserManagement.LegacyIdIsSequentialId | backend/controllers/userManagementController.js:92-94 | the legacy id 2501 + count is the sequential 25xx id of count + 1 while fewer than 99 teams exist; the handler computes it but stores it under `id`, a field the schema lacks, so it is never saved |
| UserManagement.LegacyMembers | backend/controllers/userManagementController.js:101-105 | legacy members map college to collegeName and coerce isFromIIITS |
| UserManagement.LegacyCreateNeverSaves | backend/controllers/userManagementController.js:84-129 | the legacy createTeam always fails with 500: status 'inactive' is outside the enum and qrData is missing |
| Helpers.TruncateText | frontend2/src/utils/helpers.js:18-22 | a falsy text gives '', a text no longer than maxLength is returned as it is, a longer one becomes its first maxLength UTF-16 code units followed by '...' |
| Helpers.TruncateBounds | frontend2/src/utils/helpers.js:18-22 | the result is at most maxLength + 3 code units long and is a prefix of the text, with or without '...' |
| Helpers.TruncateCountsCodeUnits | frontend2/src/utils/helpers.js:18-22 | lengths are counted in code units: a text of two emoji is four long, and a cut at 3 keeps only the first half of the second emoji |
| Helpers.TruncateIdempotent | frontend2/src/utils/helpers.js:18-22 | truncating a truncated text changes nothing |
| Helpers.IndexOf | frontend2/src/utils/helpers.js:33 | the first '@' of the text, or none |
| Helpers.AcceptedHasShape | frontend2/src/utils/helpers.js:32-35 | an accepted email has the regular expression's shape |
| Helpers.ShapeIsAccepted | frontend2/src/utils/helpers.js:32-35 | a text of the shape, split at its first '@' and some later '.', is accepted |
| Helpers.IsValidEmailMatchesRegex | frontend2/src/utils/helpers.js:32-35 | isValidEmail accepts exactly the texts local@host.tld with each part non-empty and free of whitespace and '@' |
| Helpers.AreRequiredFieldsFilled | frontend2/src/utils/helpers.js:38-43 | true exactly when no listed field is undefined, null or '' (so true for an empty list) |
| Helpers.RequiredFieldsAppend | frontend2/src/utils/helpers.js:38-43 | checking two lists of fields is checking each |
| Helpers.FillingKeepsFilled | frontend2/src/utils/helpers.js:38-43 | setting a field to a non-empty string keeps a filled object filled |
| Helpers.FormatTeamStatus | frontend2/src/utils/helpers.js:70-81 | the label is 'Unknown' exactly when the status is not approved, pending or rejected |
| Helpers.FormatTeamStatusDistinguishes | frontend2/src/utils/helpers.js:70-81 | the three known statuses have distinct labels |
| Helpers.StoredStatusesAreUnknown | frontend2/src/utils/helpers.js:70-81 | the statuses a team can hold, 'valid' and 'invalid', both show as 'Unknown' |
| JsBuiltins.Trim | backend/models/Team.js:44-53 | trimming gives a text with no whitespace at either end |
| JsBuiltins.TrimCutsOnlyWhitespace | backend/models/Team.js:44-53 | trimming keeps one piece of the text, and everything it cuts off before and after that piece is whitespace |
| JsBuiltins.TrimIdempotent | frontend2/src/components/Team/CreateTeam.jsx:123-127 | trimming twice is trimming once |
| JsBuiltins.TrimEmptyIff | frontend2/src/components/Team/CreateTeam.jsx:98-113 | a text trims to '' exactly when it is all whitespace |
| JsBuiltins.ToLower | frontend2/src/components/Admin/TeamList.jsx:487-491 | lower-casing keeps the length and lowers each character |
| JsBuiltins.Includes | frontend2/src/components/Admin/TeamList.jsx:487-491 | includes holds exactly when the piece occurs at some position |
| JsBuiltins.Filter | frontend2/src/components/Admin/AdminDashboard.jsx:396-397 | filter keeps exactly the elements that pass the test |
| JsBuiltins.Splice1 | frontend2/src/components/Team/CreateTeam.jsx:79-83 | removing one element at an index in range shifts the later ones down; an index past the end changes nothing |
| JsBuiltins.PadStart | backend/controllers/teamController.js:43 | padding fills on the left up to the width and keeps the text at the end |
| ClientView.ToClient | backend/controllers/teamController.js:130-138 | the API object of a stored team carries its id, teamId, name, leader, status, qrData, members and foodStatus, with an unset foodStatus left out |
| ClientView.OrElse | frontend2/src/components/Admin/TeamList.jsx:171-185 | `value \|\| fallback` gives the value when it is truthy and the fallback otherwise |
| ClientView.NoMealsJsonIsDefault | frontend2/src/components/Admin/TeamList.jsx:183-184 | the front end's all-'invalid' object is the schema's default foodStatus |
| ClientView.ClientsOf | backend/controllers/teamController.js:130-138 | the response holds one API object per stored document, in order |
| ClientView.EmptyQueryMatches | frontend2/src/components/Admin/TeamList.jsx:487-491 | the empty query matches every text |
| ClientView.PieceMatches | frontend2/src/components/Admin/TeamList.jsx:487-491 | a text matches every piece of itself |
| ClientView.FilterOrThrow | frontend2/src/components/Admin/TeamList.jsx:487-491 | the filter throws exactly when the test throws on some team; otherwise it keeps exactly the teams the test accepts, in their order and each once |
| ClientView.FilterOrThrowAll | frontend2/src/components/Admin/TeamList.jsx:487-491 | a test accepting every team keeps the list as it is |
| TeamList.EditCopy | frontend2/src/components/Admin/TeamList.jsx:169-185 | the edit copy keeps the ids and qrData, defaults a falsy name, leader, member name and college name to '', a falsy status to 'invalid' and a missing foodStatus to all-'invalid', keeps one member per member, and coerces isFromIIITS to a boolean |
| TeamList.EditCopyOfStored | frontend2/src/components/Admin/TeamList.jsx:169-185 | the edit copy of a stored team holds exactly its name, leader, status, members and foodStatus |
| TeamList.SetMealJson | frontend2/src/components/Admin/TeamList.jsx:302-319 | setting one meal of the copy changes only that meal |
| TeamList.StatusCheckbox | frontend2/src/components/Admin/TeamList.jsx:292-293 | the status checkbox sets status 'valid' exactly when checked and 'invalid' otherwise, and changes nothing else |
| TeamList.FoodCheckbox | frontend2/src/components/Admin/TeamList.jsx:302-319 | a food checkbox sets only the named meal to 'valid' or 'invalid', starting from all-'invalid' when foodStatus is missing, and changes nothing else |
| TeamList.MemberEdit | frontend2/src/components/Admin/TeamList.jsx:321-352 | a member edit changes only the named field of the member at the index and no other member |
| TeamList.UnknownEventIgnored | frontend2/src/components/Admin/TeamList.jsx:281-358 | an event with an unknown field name leaves the form unchanged |
| TeamList.StatusStaysInEnum | frontend2/src/components/Admin/TeamList.jsx:292-293 | no input event takes status out of 'valid'/'invalid' |
| TeamList.AddMember | frontend2/src/components/Admin/TeamList.jsx:360-371 | adding appends one blank member and changes nothing else, and does nothing without an open form |
| TeamList.RemoveMember | frontend2/src/components/Admin/TeamList.jsx:373-383 | removing splices the members at the index and changes nothing else |
| TeamList.RemoveExactlyOne | frontend2/src/components/Admin/TeamList.jsx:373-383 | removing at an index in range drops exactly that member and keeps the others in order |
| TeamList.RemoveUndoesAdd | frontend2/src/components/Admin/TeamList.jsx:360-383 | removing the member just added gives back the form |
| TeamList.SubmitEditOk | frontend2/src/components/Admin/TeamList.jsx:385-450 | an accepted edit had a token, a non-blank name and leader and complete members, and sends the PUT to the team's teamId with the built payload |
| TeamList.SubmitEditChecks | frontend2/src/components/Admin/TeamList.jsx:387-441 | the update is sent exactly when there is a token, the trimmed name and leader are non-empty and every member has a non-blank name and college; the payload holds trimmed strings |
| TeamList.SentEditPassesServerChecks | frontend2/src/components/Admin/TeamList.jsx:430-441 | what the dialog sends passes every check of updateTeam |
| TeamList.SentItemsComplete | frontend2/src/components/Admin/TeamList.jsx:430-441 | the sent member list is complete |
| TeamList.FindStored | backend/controllers/teamController.js:166 | with unique teamIds, looking a stored team up by its teamId finds that team |
| TeamList.SameKeysClashWithNoOther | backend/models/Team.js:94-95 | a team keeping its own teamId and name clashes with no other team |
| TeamList.UnchangedPayload | frontend2/src/components/Admin/TeamList.jsx:169-185 | the payload of an unchanged edit passes the checks and applies back to the stored team |
| TeamList.SaveUnchangedEdit | frontend2/src/components/Admin/TeamList.jsx:385-464 | opening a stored team's dialog and saving it unchanged gives back the stored team (with foodStatus filled in when missing) |
| TeamList.FilteredTeams | frontend2/src/components/Admin/TeamList.jsx:487-491 | the search keeps a team exactly when its name, leader or teamId contains the query, ignoring ASCII case, keeps the kept teams in their order, and throws on a team lacking a field it has to read |
| TeamList.SearchOfStoredTeam | frontend2/src/components/Admin/TeamList.jsx:487-491 | on a stored team the search test reads its name, leader and teamId |
| TeamList.EmptyQueryKeepsAll | frontend2/src/components/Admin/TeamList.jsx:487-491 | the empty query keeps every team |
| TeamList.EditDialog.constructor | frontend2/src/components/Admin/TeamList.jsx:169-189 | the dialog starts closed, with no team selected |
| TeamList.EditDialog.HandleEditClick | frontend2/src/components/Admin/TeamList.jsx:169-189 | opening the dialog selects the team and loads its edit copy |
| TeamList.EditDialog.HandleInputChange | frontend2/src/components/Admin/TeamList.jsx:281-358 | an input event applies the reducer to the edited team and leaves the selection and dialog alone |
| TeamList.EditDialog.HandleAddMember | frontend2/src/components/Admin/TeamList.jsx:360-371 | adding a member applies the add reducer to the edited team, nothing else |
| TeamList.EditDialog.HandleRemoveMember | frontend2/src/components/Admin/TeamList.jsx:373-383 | removing a member applies the remove reducer to the edited team, nothing else |
| CreateTeamPage.AddMember | frontend2/src/components/Team/CreateTeam.jsx:75-77 | adding appends exactly one blank member with isFromIIITS false and keeps the others |
| CreateTeamPage.MemberChangeTouchesOneField | frontend2/src/components/Team/CreateTeam.jsx:85-89 | a change replaces one field of one member and leaves all other fields and members as they were |
| CreateTeamPage.RemoveExactlyOne | frontend2/src/components/Team/CreateTeam.jsx:79-83 | removal drops exactly the member at the index and keeps the order of the rest |
| CreateTeamPage.RemoveUndoesAdd | frontend2/src/components/Team/CreateTeam.jsx:75-83 | removing the member just added gives back the list |
| CreateTeamPage.SubmitChecks | frontend2/src/components/Team/CreateTeam.jsx:91-144 | the team is sent exactly when there is a token, name and leader are not blank, the list is non-empty and every member has a name and college; blank name is reported before blank leader; the sent team has status and every meal 'invalid' and one entry per member |
| CreateTeamPage.SentMembersCast | frontend2/src/components/Team/CreateTeam.jsx:125-129 | the sent members, as createTeam maps and saves them, are the form's members trimmed, with college as collegeName |
| CreateTeamPage.SubmitFacts | frontend2/src/components/Team/CreateTeam.jsx:98-136 | a sent team had a non-blank name and leader and complete members, and carries the trimmed fields |
| CreateTeamPage.DraftValidates | frontend2/src/components/Team/CreateTeam.jsx:122-136 | the document built from a complete form saves as exactly the expected team |
| CreateTeamPage.SentTeamIsValid | frontend2/src/components/Team/CreateTeam.jsx:122-153 | what the form sends passes createTeam's first check and becomes a team with the trimmed fields, status and meals 'invalid' |
| CreateTeamPage.EncodedNonEmpty | backend/controllers/teamController.js:87-90 | an encoded payload is never empty, so qrData's required rule holds |
| CreateTeamPage.SentTeamOnlyRefusedForCapacityOrName | frontend2/src/components/Team/CreateTeam.jsx:153 | createTeam refuses a team the form sends only with 507 or a duplicate-name 400 |
| CreateTeamPage.CreateTeamForm.constructor | frontend2/src/components/Team/CreateTeam.jsx:56-62 | the form starts with empty name and leader and one blank member |
| CreateTeamPage.CreateTeamForm.HandleAddMember | frontend2/src/components/Team/CreateTeam.jsx:75-77 | the handler applies the add reducer and changes nothing else |
| CreateTeamPage.CreateTeamForm.HandleRemoveMember | frontend2/src/components/Team/CreateTeam.jsx:79-83 | the handler applies the remove reducer and changes nothing else |
| CreateTeamPage.CreateTeamForm.HandleMemberChange | frontend2/src/components/Team/CreateTeam.jsx:85-89 | the handler applies the change reducer and changes nothing else |
| CreateTeamPage.CreateTeamForm.HandleRegisterAnother | frontend2/src/components/Team/CreateTeam.jsx:170-175 | the form resets to empty name and leader, exactly one blank member, no registered team and no success message |
| AdminDashboard.NewStats | frontend2/src/components/Admin/AdminDashboard.jsx:394-413 | totalTeams and every meal total are the number of teams, valid + invalid teams is at most the total, and no meal has more valid than total |
| AdminDashboard.ParticipantsAgree | frontend2/src/components/Admin/AdminDashboard.jsx:398 | the browser's reduce, counting a missing members list as 0, adds the same counts as the server's sum |
| AdminDashboard.StatusCountsAgree | frontend2/src/components/Admin/AdminDashboard.jsx:396-397 | on stored teams valid + invalid equals the number of teams and each count equals the server's |
| AdminDashboard.MealCountAgrees | frontend2/src/components/Admin/AdminDashboard.jsx:399-412 | on stored teams each meal's valid count equals getFoodStats' served count |
| AdminDashboard.StatsOfStoredTeams | frontend2/src/components/Admin/AdminDashboard.jsx:391-413 | on the list the API returns, every figure of the dashboard equals the server's |
| TeamDashboard.Counters | frontend2/src/components/Team/TeamDashboard.jsx:115-126 | total is the number of teams received, valid is the number of them whose status is 'valid', invalid the number of all the others (so valid + invalid is total), and the three meal counters are always 0 |
| TeamDashboard.NonListIsEmpty | frontend2/src/components/Team/TeamDashboard.jsx:115 | a response that is not an array shows as no teams |
| TeamDashboard.CountersAgreeWithAdminDashboard | frontend2/src/components/Team/TeamDashboard.jsx:118-122 | when every status is in the enum, valid and invalid = total − valid agree with the admin dashboard |
| TeamDashboard.MissingStatusCountsAsInvalid | frontend2/src/components/Team/TeamDashboard.jsx:120-122 | a team without a status counts as invalid here but in neither figure of the admin dashboard |
| TeamDashboard.FilteredDashboardTeams | frontend2/src/components/Team/TeamDashboard.jsx:137-140 | the search keeps a team exactly when its name or leader contains the query, ignoring ASCII case, keeps the kept teams in their order, and throws on a team lacking a field it reads |
| TeamDashboard.DashboardSearchIsNarrower | frontend2/src/components/Team/TeamDashboard.jsx:137-140 | every team this search keeps is kept by the admin list's search |
| TeamDashboard.TeamIdOnlyInAdminList | frontend2/src/components/Team/TeamDashboard.jsx:137-140 | a search by teamId finds the team in the admin list but not here |

## Left out

- Persistence: MongoDB is a list of documents held in memory, in insertion order. Each document has an internal id (the `_id`) given by the caller. ObjectId generation, `countDocuments` and query planning are not modelled.
- `validateObjectId`: utils/validators is not part of this model. It is taken to accept exactly 24 hexadecimal digits. An id names the ObjectId it casts to, so lookups by internal id ignore the case of the hex letters.
- JSON: `JSON.stringify`/`JSON.parse` of the QR payload is replaced by a codec of escaped, `;`-terminated fields. The codec carries the same payload fields, and the scanner reads only the teamId from it. General JSON is not modelled.
- HTTP, routing and authentication: Express, the routes, the JWT middleware, localStorage and axios are left out. A status code survives only as the tag of an error. The logged-in caller's id and role, and whether the browser holds a token, are parameters.
- Time and randomness: the current time (as a number and as an ISO string) is a parameter. `formatDate`, `generateTeamId`, `parseJwt`, `isTokenExpired` and `getUserRoleFromToken` are left out: they depend on the clock, `Math.random`, base64 and locale formatting.
- generateQRCode: rendering the stored string as a QR image is left out. Camera scanning and QR rendering in the browser are left out too.
- Concurrency: two creations racing for the same number are not modelled. The collision guard is an ordinary existence check, and it is proved never to fire in sequential use.
- Mongoose's `timestamps` (`updatedAt`) and the version key are not modelled. `createdAt` is kept.
- Password hashing and the User model's own rules are left out. A created user keeps its password only as an opaque string that listings never return.
- TeamList.EditDialog.HandleInputChange: at TeamList.jsx:315 the source writes into the foodStatus object that the previous state shares. The model makes a fresh foodStatus, so it does not capture that aliasing.
- JsBuiltins.ToLower: only ASCII letters are lowered. Unicode case folding is not modelled.
- Helpers.TruncateText: maxLength is a natural number with a default of 100. A negative or non-number maxLength is not modelled.
- Helpers.TruncateText: the text is a sequence of UTF-16 code units, as JavaScript stores it. A non-string text, which `length` and `slice` would treat differently, is not modelled.
- Helpers.IsValidEmailMatchesRegex: the email is a string. A non-string argument, which `test` would coerce to text, is not modelled.
- CreateTeamPage.CreateTeamForm.HandleMemberChange: the index must name an existing member. Writing past the end, which would leave holes in the list, is not modelled.
- TeamList.EditDialog.HandleInputChange: requires that an event's field types fit its name, as the form's inputs guarantee, and that a member event's index is at most the number of members. Ill-typed events and writes further past the end of the member list are not modelled.
- The `!members` and non-object member branches of the two forms cannot occur, because the forms always hold an array of member objects, and they are not modelled.
- AdminDashboard.NewStats: takes the list of teams. The source's missing `Array.isArray` guard, under which a non-array response throws, is not modelled.
- TeamRegistry.CreateResult: the request body is a typed record. Its name and leader are strings or absent, and each member is an object. A null or primitive member, on which the member map throws (teamController.js:58-62) and the handler answers 500, and a non-string name or leader that Mongoose would cast are not modelled.
- TeamRegistry.UpdateResult: the same holds for the update body. A null member, on which the member check throws (teamController.js:191) and the handler answers 500, and non-string name, leader or status values are not modelled.
- TeamScan.UnreadableQrRejected: the codec either yields a teamId or fails, and a failure answers 400. In the source only a `JSON.parse` failure answers 400 (teamController.js:283-287). A payload that parses but holds no teamId, or parses to `null`, goes on to the lookup at :289 with an undefined teamId or throws there. The model does not separate those cases from an unparsable payload.
- CreateTeamPage.CreateTeamForm: the form's `error` message is not a field of the class. handleRegisterAnother clears the success message but leaves an earlier error as it was, and the model does not capture that.
- User interface strings, snackbars, loading flags, navigation and the percentage rounding on the admin dashboard are left out.
