# Campus event backend — a Dafny model

This project models the core of a college event-management backend built on
Express and Mongoose:

- Organisers (every role except Student) create, edit and delete events.
- Students with a completed profile register for events.
- Students create and update their profile.
- Listings report each event's seat capacity.

The model covers:

- the two document schemas: `Event` with its pre-save hook, and `User` with its
  roles, defaults, email normalisation and `toJSON`;
- every handler in `eventController.js` and `profileController.js`;
- the `profileCheck` gate;
- the `eventAuth` gate.

The MongoDB collections are the value `Db.Tables`:

- `events`, from id to document;
- `order`, the natural order of the events collection;
- `users`, from id to document.

Each handler is a pure function of the tables and the request. A handler
that writes returns an `Outcome`: the reply (status code plus payload, or one
refusal reason with its fixed status) together with the tables afterwards. A
handler that only reads returns the reply alone (`GetEventById`,
`GetProfile`, ...) or, for the two listings, the sequence of listed events.

The handlers that write also appear as methods of the class `Campus.Store`.
Its fields are the three collections. The methods perform the source's steps
in order: the look-ups, the checks, the per-key copy loop of `updateEvent`,
the pushes of `registerForEvent` and the pre-save hook on every save. Each
method is proved to agree with its specification function and to keep the
store's invariant.

The model's invariants:

- `Indexed`: the order lists every event id exactly once.
- `Mirrored`: a user lists an event exactly when the event lists that user.
- `Closed`: every listed id exists.
- `AllSeatsValid`: free seats plus registrants equal the total, and nobody is
  registered twice.
- `UniqueEmails`: no two users share an email address.

Registration keeps all of these. Deletion and some seat edits break some of
them: the lemmas show how.

Time is an integer. Each request carries one instant `now`, which stands for
`new Date()` and `Date.now`. JWT verification is an oracle map `verified`
from token strings to user ids.

Two behaviours of the code are worth knowing:

- **Deadline instant.** Registration is refused only when
  `now > registrationDeadline`, so the deadline instant itself is still open
  (`Registration.DeadlineInstantAccepted`).
- **Zero derived free count.** `updateEvent` derives `availableSeats` from a new
  `totalSeats`. When the derived count is 0 it is falsy, so the copy loop
  skips it and the old count stays. The model states exactly this
  (`EventEdit.UpdateSeatRule`, `EventEdit.ZeroDeltaLeavesStaleSeats`).

## Model

| member | source | states |
|---|---|---|
| Text.Trim | src/models/User.js:13 | the result starts and ends with a non-whitespace character, or is empty |
| Text.TrimCutsSpace | src/models/User.js:13 | trimming only cuts a run of whitespace off each end: the result is a slice of the input with whitespace as the only thing on either side |
| Text.TrimIdempotent | src/models/User.js:13 | trimming twice is the same as trimming once |
| Text.Lower | src/models/User.js:14 | lower-casing keeps the length and maps every character through the ASCII lower-case map |
| Text.LowerTrimCommute | src/models/User.js:13-14 | trimming and lower-casing commute, so the order of the two setters does not matter |
| Text.IndexOf | src/middleware/eventAuth.js:6 | the result is the first position where the pattern occurs; None exactly when it occurs nowhere |
| UserModel.ParseRole | src/models/User.js:20-24 | a parsed role's name is the parsed string |
| UserModel.ParseRoleName | src/models/User.js:20-24 | every role's name parses back to that role, so the enum check accepts exactly the eight names |
| UserModel.NormalizeEmail | src/models/User.js:9-15 | a stored email is the trimmed and lower-cased input, and it carries no surrounding whitespace and no upper-case letter |
| UserModel.NormalizeEmailIdempotent | src/models/User.js:9-15 | normalising a stored email again changes nothing |
| UserModel.NewUser | src/models/User.js:5-64 | a new user gets role Student unless it names a valid role, and is rejected exactly when the role is outside the enum; it starts with none of the six profile fields (phone, enrollment number, birthdate, class, year, semester), an unfinished profile, no registrations, a normalised email, a trimmed name, the given password, and both timestamps at the creation time |
| UserModel.ToJson | src/models/User.js:68-73 | `toJSON`: the document's fields without `password` |
| UserModel.ToJsonForgetsOnlyPassword | src/models/User.js:68-73 | two users have the same JSON exactly when they differ at most in the password, so `toJSON` hides the password and nothing else |
| EventModel.ParseCategory | src/models/Event.js:46-50 | a parsed category's name is the parsed string |
| EventModel.ParseCategoryName | src/models/Event.js:46-50 | every category's name parses back to that category |
| EventModel.NewRegistration | src/models/Event.js:70-79 | a pushed `{ userId }` entry gets that user id and `registeredAt` set to the current time |
| EventModel.RegistrantsAppend | src/routes/events/eventController.js:259 | pushing an entry appends that user id to the registrant list |
| EventModel.SeatsValidBounds | src/models/Event.js:38-45 | under the seat discipline the free count lies between 0 and the total |
| EventModel.Construct | src/routes/events/eventController.js:13-21 | a new event holds the input's name, description, venue and organiser name trimmed, and its date, time, category, registration deadline, contacts and tags as sent; it starts with all seats free, the requester as organiser, price defaulting to 0, both timestamps at the creation time and, for a body without `registeredUsers` or `isExpired`, not expired and with no registrants |
| EventModel.PreSave | src/models/Event.js:91-98 | the saved document is the input with `isExpired` set exactly when it was set or the date lies before the save time, and `updatedAt` at the save time |
| EventModel.PreSaveNeverUnexpires | src/models/Event.js:93-96 | the hook never clears the expired flag, and an event dated at the save instant is not expired by it |
| EventModel.PreSaveKeepsSeats | src/models/Event.js:91-98 | the hook changes neither seat count nor the registrants, so it keeps the seat discipline both ways |
| Capacity.RoundHalfUp | src/routes/events/eventController.js:121 | the result is the integer nearest the exact ratio n/d, with halves rounded up, as `Math.round` does for exact inputs |
| Capacity.RoundHalfUpUnique | src/routes/events/eventController.js:121 | at most one integer satisfies that nearest-integer bound |
| Capacity.PercentageFilled | src/routes/events/eventController.js:121 | undefined (None) exactly when the total is 0; otherwise the exact ratio 100·filled/total rounded half up |
| Capacity.CapacityOf | src/routes/events/eventController.js:117-122 | the capacity block repeats the document's total and free counts, and filled plus free equals the total |
| Capacity.PercentageInRange | src/routes/events/eventController.js:121 | when 0 ≤ free ≤ total and total > 0, the percentage is defined and lies in 0..100 |
| Capacity.PercentageExtremes | src/routes/events/eventController.js:121 | a full event is 100% filled and an empty one 0% |
| Capacity.FiftySeatsExample | src/routes/events/eventController.js:117-122 | 50 seats with 35 free report 15 filled and 30% |
| Capacity.HalfRoundsUp | src/routes/events/eventController.js:121 | 1 of 8 seats filled (12.5%) reports 13 |
| Db.Without | src/routes/events/eventController.js:90 | removing an id keeps exactly the other ids, a duplicate-free order stays duplicate-free, and an order without that id is left as it is |
| Db.WithoutConcat | src/routes/events/eventController.js:90 | removal distributes over concatenation, so the remaining ids keep their natural order |
| Db.RemoveFromOrder | src/routes/events/eventController.js:90 | in a duplicate-free order, deleting the id at position k leaves exactly the ids before and after it, in order |
| Db.SameListsKeepConsistency | src/routes/profile/profileController.js:36-48 | a change to users that keeps every user's `registeredEvents` (as profile edits and role changes do) keeps all the invariants |
| Db.SameRegistrantsKeepMirror | src/routes/events/eventController.js:60-66 | replacing an event by one with the same registrants keeps the two-way mirror and the closure |
| EventQueries.Find | src/routes/events/eventController.js:103-111 | the found documents are exactly the stored events that match the filters, with no id repeated |
| EventQueries.SortByDate | src/routes/events/eventController.js:111 | the result is sorted by date and is a permutation of the input |
| EventQueries.InsertPermutes | src/routes/events/eventController.js:111 | inserting into a sorted list adds exactly that element |
| EventQueries.SortedListing | src/routes/events/eventController.js:111-124 | the listing is sorted by date, is a permutation of the found documents with their capacity, contains every matching event, and lists no event twice |
| EventQueries.PermutedIdsDistinct | src/routes/events/eventController.js:111 | sorting cannot duplicate an event: a permutation of a list with distinct ids has distinct ids |
| EventQueries.ListingSound | src/routes/events/eventController.js:103-124 | every listed entry is a stored event that matches the filters and carries its own capacity |
| EventQueries.ListingComplete | src/routes/events/eventController.js:103-124 | every stored event that matches the filters is listed |
| EventQueries.GetEvents | src/routes/events/eventController.js:98-131 | `GET /events` lists events in date order; each entry matches the `category` filter when one is given and the `expired` filter when it is present, carries its stored document and capacity, every matching stored event appears, and none appears twice |
| EventQueries.GetEventById | src/routes/events/eventController.js:133-156 | 404 exactly when the id is unknown; otherwise 200 with the document and its capacity |
| EventQueries.GetOrganizerEvents | src/routes/events/eventController.js:415-441 | exactly the requester's own events, in date order, each with its capacity and each listed once |
| EventQueries.UserEventSummaries | src/routes/events/eventController.js:374-401 | the summaries are exactly the user's listed events that still exist, with no id repeated |
| EventQueries.GetUserRegisteredEvents | src/routes/events/eventController.js:365-412 | 404 exactly when the user is unknown; otherwise the stored registered events, a count equal to the list's length and status "Registered" |
| EventQueries.Entries | src/routes/events/eventController.js:319-341 | one entry per registrant, in order, with its user id and registration time; the user part is absent exactly when no such user is stored, and otherwise shows that user's details (missing or falsy fields as "N/A") |
| EventQueries.GetEventRegistrations | src/routes/events/eventController.js:284-362 | a missing id gives 400, a malformed id 400, an unknown event 404, someone else's event 403; 200 exactly for the organiser's own event, with one entry per registrant |
| Registration.Refusal | src/routes/events/eventController.js:205-256 | the checks run in the source's order: each of the seven reasons is given exactly when every earlier check passes and its own fails (unknown user, non-student, incomplete profile, unknown event, past deadline, no seats, already listed on either side) |
| Registration.RefusalIffIneligible | src/routes/events/eventController.js:205-256 | a request is refused exactly when one of the checks fails |
| Registration.Register | src/routes/events/eventController.js:193-281 | `POST /events/:id/register` fails exactly when a check fails, with the first failing check's reason and no change; otherwise it answers 200 and the request was eligible |
| Registration.RegisterEffect | src/routes/events/eventController.js:258-265 | a successful registration appends the user to the event with the current time, takes one seat, appends the event id to the user's list, runs the hook, and changes nothing else; the free count stays non-negative |
| Registration.DeadlineInstantAccepted | src/routes/events/eventController.js:234-237 | registration at the deadline instant succeeds, and one tick later it is refused with the "closed" reason |
| Registration.DuplicateChecksAgree | src/routes/events/eventController.js:244-256 | when the mirror holds, the user-side and event-side duplicate checks agree |
| Registration.RegisterKeepsSeats | src/routes/events/eventController.js:239-261 | registration keeps the seat discipline of every event |
| Registration.RegisterKeepsMirror | src/routes/events/eventController.js:258-265 | registration keeps the two-way mirror between events and users, and the closure |
| Registration.RegisterKeepsConsistency | src/routes/events/eventController.js:258-265 | registration keeps every invariant |
| Registration.SecondRegistrationRefused | src/routes/events/eventController.js:244-247 | repeating a successful registration is refused with 400 and changes nothing |
| Registration.LastSeat | src/routes/events/eventController.js:239-242 | on the last seat, the first of two eligible students gets it and the second is refused with "no seats"; the count ends at 0 |
| EventEdit.Truthy | src/routes/events/eventController.js:60-64 | the `if (req.body[key])` test: a string is truthy when non-empty after the validation chain's trim, a number when non-zero, a flag when true; dates, tags and registrant lists always are |
| EventEdit.Assign | src/routes/events/eventController.js:60-64 | `event[key] = value` changes only the field named by the key: the seat counts, the registrants and the timestamps stay unless that key is sent |
| EventEdit.CopyBody | src/routes/events/eventController.js:60-64 | the `Object.keys(req.body).forEach` loop: each truthy entry is assigned in body order |
| EventEdit.SetAvailable | src/routes/events/eventController.js:51-54 | after the derived value is stored in the body, the body's `availableSeats` is that value; a body without the key gains it at the end |
| EventEdit.CopySetAvailable | src/routes/events/eventController.js:60-64 | storing the derived count in the body changes only the copied free count: a non-zero value is written, and a zero one leaves the old count |
| EventEdit.AssignOtherKey | src/routes/events/eventController.js:60-64 | copying any key other than `availableSeats` leaves the free count alone and acts the same on documents that differ only there |
| EventEdit.Update | src/routes/events/eventController.js:35-75 | `PUT /events/:id`: an invalid body gives 400, an unknown event 404, another organiser's event 403, each with no change; a negative free count in the derived body gives 400 with no change exactly when the body is valid and the caller owns the event; success exactly when the body is valid, the caller owns the event and the derived free count is not negative, with 200, the copied body after the hook, and only that event replaced |
| EventEdit.DirectNegativeRefused | src/routes/events/eventController.js:56-58 | a negative free count sent alone by the owner is refused with 400 and no change |
| EventEdit.RegistrantsResetBreaksMirror | src/routes/events/eventController.js:60-64 | a body `registeredUsers: []` from the owner is accepted and copied, leaving users that still list the event, so the mirror breaks and, for a consistent event with registrants, the seat discipline too |
| EventEdit.CopyBodyFields | src/routes/events/eventController.js:60-64 | copying a body keeps the registrants and sets each seat count to the body's value when that value is truthy, otherwise keeps the stored one |
| EventEdit.CopyBodyKeepsRegistrants | src/routes/events/eventController.js:60-64 | a body without a `registeredUsers` entry leaves the registrants unchanged |
| EventEdit.CopyBodyAvailable | src/routes/events/eventController.js:60-64 | the copied free count is the body's value when truthy, else the stored one |
| EventEdit.CopyBodyTotal | src/routes/events/eventController.js:60-64 | the copied total is the body's value when truthy, else the stored one |
| EventEdit.NoKeyInPrefix | src/routes/events/eventController.js:60-64 | in a body with distinct keys, a seat key at the end does not occur earlier |
| EventEdit.UpdateSeatRule | src/routes/events/eventController.js:51-64 | with a new total, a negative derived free count is refused with no change, a positive one is written, and a zero one leaves the old free count while the total is written |
| EventEdit.DerivedSeats | src/routes/events/eventController.js:51-64 | for a body with a total, the derived body's free count is `available + (newTotal − total)` and the copy keeps the total |
| EventEdit.TotalSeatsPositive | src/routes/events/eventRoutes.js:23-48 | a body that passed validation has a total of at least 1 |
| EventEdit.UpdateKeepsSeats | src/routes/events/eventController.js:51-64 | a successful update of a body without `registeredUsers` keeps the seat discipline when it does not send the free count alone and any new total leaves a non-zero derived count or is unchanged |
| EventEdit.ZeroDeltaLeavesStaleSeats | src/routes/events/eventController.js:51-64 | lowering the total by exactly the free count succeeds but keeps the old free count, which breaks the seat discipline; when more than half the seats are free, the event then reports more free seats than its total |
| EventEdit.DirectAvailableUnbounded | src/routes/events/eventController.js:56-64 | a positive free count sent alone is written as is, with no upper bound from the total |
| EventEdit.UpdateKeepsMirror | src/routes/events/eventController.js:35-75 | an update of a body without `registeredUsers` keeps the two-way mirror and the closure |
| EventEdit.SeatEditExample | src/routes/events/eventController.js:51-58 | 30 seats with 10 free: a new total of 25 leaves 5 free, and 15 is refused as negative |
| EventEdit.Create | src/routes/events/eventController.js:5-33 | `POST /events`: a total below 1 gives 400 and no change; otherwise 201 with the constructed event after the hook (the input's name, date, category and deadline, all seats free, the requester as organiser, price defaulting to 0, both timestamps at the creation time and, for a body without `registeredUsers` or `isExpired`, no registrants and expired exactly when the date is past), and the event added at the end of the order |
| EventEdit.CreateKeepsConsistency | src/routes/events/eventController.js:13-23 | creating an event keeps every invariant (the input carries only the schema's fields; see "Left out") |
| EventEdit.AddFreshEvent | src/routes/events/eventController.js:21-23 | adding a fresh event with no registrants and valid seats keeps every invariant |
| EventEdit.AppendFreshKeepsIndex | src/routes/events/eventController.js:21-23 | appending a fresh id keeps the order an index of the events |
| EventEdit.Delete | src/routes/events/eventController.js:77-96 | `DELETE /events/:id`: 404 for an unknown event, 403 for another organiser's, with no change; success exactly for the organiser's own event, which is removed from events and from the order (the other ids keep their order) while users stay untouched |
| EventEdit.DeleteKeepsMirror | src/routes/events/eventController.js:77-96 | deletion keeps the index, the mirror and the seat discipline |
| EventEdit.DeleteLeavesDanglingIds | src/routes/events/eventController.js:85-89 | a user registered for a deleted event still lists its id, so the closure breaks |
| ProfileController.CreateProfile | src/routes/profile/profileController.js:6-65 | `POST /profile`: invalid input 400, unknown user 404, non-student 403, existing profile 400 (exactly for a completed student), each with no change; 201 exactly for a student without a profile, who then has the fields, the flag set, `updatedAt` set, the same account data, and nobody else changes |
| ProfileController.UpdateProfile | src/routes/profile/profileController.js:107-159 | `PUT /profile`: invalid input 400, unknown user 404, non-student 403, missing profile 404 (exactly for an incomplete student), with no change; 200 exactly for a completed student, whose stored document is then the old one with the sent fields, trimmed, and `updatedAt` set; the flag stays set |
| ProfileController.UpdateThenGet | src/routes/profile/profileController.js:132-145 | after a profile is updated, reading it back returns the trimmed fields that were sent and the unchanged registrations |
| ProfileController.GetProfile | src/routes/profile/profileController.js:68-104 | 404 for an unknown user, 403 for a non-student, 404 for a missing profile (exactly "profile not found" for an incomplete student); 200 exactly for a completed student, with their name, email and registered events |
| ProfileController.GetUserEvents | src/routes/profile/profileController.js:162-207 | 404 for an unknown user, 403 for a non-student; otherwise the count equals the list's length, the list is exactly the student's existing registered events, each entry is that event's summary, and no event is listed twice |
| ProfileController.CreateThenGet | src/routes/profile/profileController.js:36-48 | after a profile is created, reading it back returns the trimmed fields that were sent and the unchanged registrations |
| ProfileController.CreateOnlyOnce | src/routes/profile/profileController.js:29-34 | once a profile exists, creating it again is refused with "already exists", and updating it succeeds |
| ProfileController.CompletedStudent | src/routes/profile/profileController.js:29-34 | for a completed student, create is refused as existing and update succeeds |
| ProfileController.CompletionFlagMonotone | src/models/User.js:47-50 | no profile handler clears the completion flag; update leaves it as is; only a successful create sets it, and only for its own user |
| ProfileController.ProfileKeepsConsistency | src/routes/profile/profileController.js:36-48 | creating or updating a profile keeps every invariant |
| ProfileGate.ProfileCheck | src/middleware/profileCheck.js:7-44 | the request passes exactly when a non-empty user id names a stored user who is not a student or has a completed profile; a missing id gives 401, an incomplete student 403; there are no other refusals except "user not found" |
| ProfileGate.ProfileFlagOnlyForIncompleteStudents | src/middleware/profileCheck.js:31-36 | a refusal carries `profileRequired` exactly when the user is an incomplete student |
| Text.ReplaceFirst | src/middleware/eventAuth.js:6 | `String.prototype.replace` with a string pattern: without an occurrence the input is returned; otherwise the first occurrence is replaced and the rest kept |
| Text.IsObjectIdHex | src/routes/events/eventController.js:295 | the `/^[0-9a-fA-F]{24}$/` test: exactly 24 hexadecimal digits |
| EventAuth.StripBearer | src/middleware/eventAuth.js:6 | with no "Bearer " in the header it is left unchanged; otherwise the first occurrence, and only it, is cut out |
| EventAuth.StripBearerPrefix | src/middleware/eventAuth.js:6 | "Bearer " followed by a token yields the token |
| EventAuth.StripBearerBareToken | src/middleware/eventAuth.js:6 | a header without "Bearer " is used as the token |
| EventAuth.StripBearerInside | src/middleware/eventAuth.js:6 | the first "Bearer " is removed wherever it occurs ("xBearer y" gives "xy") |
| EventAuth.Authenticate | src/middleware/eventAuth.js:4-41 | no token gives 401; an unverifiable token gives 401; the caller, with their stored role, is attached exactly when the token verifies to a stored non-student; 404 exactly when the token verifies to an unknown user; 403 exactly when it verifies to a stored student |
| EventAuth.StudentsAreTurnedAway | src/middleware/eventAuth.js:27-30 | a student's valid token is refused with 403 |
| EventAuth.UnknownUserIsNotFound | src/middleware/eventAuth.js:18-23 | a valid token of a user no longer stored is refused with 404 |
| Http.StatusOf | src/routes/events/eventController.js:1-441 | every refusal has status 400, 401, 403 or 404; the `profileRequired` refusals are 403, and 401 is exactly the token-related refusals. The same table gives the codes of the refusals raised in `src/routes/profile/profileController.js` (400 bad input or existing profile, 403 non-student, 404 unknown user or missing profile), `src/middleware/profileCheck.js` (401, 404, 403 with `profileRequired`) and `src/middleware/eventAuth.js` (401, 404, 403) |
| RoleAdmin.SameEmailKeepsUnique | src/models/User.js:9-15 | replacing a user by one with the same email keeps emails unique |
| RoleAdmin.ChangeRole | src/routes/events/eventController.js:158-190 | `POST /events/change-role`: an invalid role gives 400, a non-admin 403, an unknown email 404, each with no change; 200 exactly for an admin and a known email, and then only that user's role changes and the reply is that user's JSON |
| RoleAdmin.ChangeRoleKeepsConsistency | src/routes/events/eventController.js:178-180 | a role change keeps unique emails and every invariant |
| RoleAdmin.ChangeRoleReply | src/routes/events/eventController.js:182-185 | the reply shows the new role, whose name is the requested one |
| Routes.RegisterRoute | src/routes/events/eventRoutes.js:67 | a successful route call is the handler's outcome; any refusal changes nothing |
| Routes.GateIsRedundantForRegistration | src/middleware/profileCheck.js:14-39 | for a non-empty user id, the route with the profile gate has the handler's effect, success, status and `profileRequired` flag |
| Routes.ProfileThenRegister | src/routes/events/eventController.js:219-225 | an eligible student without a profile is refused with 403 and the flag; after creating a profile, the same registration succeeds |
| Routes.NonStudentsPassGateButCannotRegister | src/middleware/profileCheck.js:25-28 | a non-student passes the gate, is then refused by the handler with 403, and nothing changes |
| Routes.UpdateRoute | src/routes/events/eventRoutes.js:65-68 | a refused edit, by the gate or the handler, changes nothing |
| Routes.DeleteRoute | src/routes/events/eventRoutes.js:65-68 | a refused deletion changes nothing |
| Routes.OnlyOwnersEdit | src/routes/events/eventController.js:47-49 | an edit or deletion succeeds only for a verified non-student caller who is the event's organiser |
| Campus.Store.constructor | src/models/Event.js:1-101 | the store starts from tables in which the order indexes the events and emails are unique |
| Campus.Store.SaveEvent | src/models/Event.js:91-98 | saving runs the hook on the document and stores it under its id; nothing else changes |
| Campus.Store.CreateEvent | src/routes/events/eventController.js:5-33 | the reply and new state are those of `EventEdit.Create`, and the store invariant holds |
| Campus.Store.UpdateEvent | src/routes/events/eventController.js:35-75 | the checks, the derivation and the copy loop give the reply and state of `EventEdit.Update`, and the invariant holds |
| Campus.Store.CopyFields | src/routes/events/eventController.js:60-64 | the key-by-key copy loop produces the document `EventEdit.CopyBody` describes |
| Campus.Store.DeleteEvent | src/routes/events/eventController.js:77-96 | the reply and state are those of `EventEdit.Delete`, and the invariant holds |
| Campus.Store.RegisterForEvent | src/routes/events/eventController.js:193-281 | the checks in order, the two pushes and the two saves give the reply and state of `Registration.Register`, and the invariant holds |
| Campus.Store.ChangeUserRole | src/routes/events/eventController.js:158-190 | the reply and state are those of `RoleAdmin.ChangeRole`, and the invariant holds |
| Campus.Store.CreateProfile | src/routes/profile/profileController.js:6-65 | the reply and state are those of `ProfileController.CreateProfile`, and the invariant holds |
| Campus.Store.UpdateProfile | src/routes/profile/profileController.js:107-159 | the reply and state are those of `ProfileController.UpdateProfile`, and the invariant holds |

## Left out

- Floating point: the percentage is the exact ratio rounded half up. A total of 0 gives None where the source produces NaN or Infinity. `getUserEvents` applies the same formula and is modelled by the same function.
- Capacity.PercentageFilled: the source rounds the double `(filled / total) * 100`, whose rounding error can move a value that is exactly a half down by one. For example 23 of 40 seats filled gives 57 in the source and 58 here, and 29 of 200 gives 14 and 15. Away from halves the two agree.
- Concurrency: each handler runs alone. A crash between the event save and the user save of `registerForEvent` is not modelled, and neither are concurrent registrations racing for the last seat.
- JWT: signature checking and expiry are an oracle map from token to user id. A token that fails to verify is a token absent from the map.
- Server errors: Mongoose `CastError`s on malformed ids, database failures and every other 500 path are left out. Every id is assumed to cast.
- Validation rules other than those listed below are left out: the `notEmpty` checks on the (trimmed) name, description, venue and organiser name, ISO dates, the time format, the contact email and phone formats, and the `isEmail` check on the change-role email (src/routes/events/eventRoutes.js:53). The model keeps: the trimming of name, description, venue and organiser name (src/routes/events/eventRoutes.js:24-29 and 37-42), a total of at least 1, the category enum, the role enum, the profile phone pattern, non-empty enrollment number and class, year 1..5 and semester 1..10.
- EventEdit.Create: the category check is carried by the `Category` type of the input, so an unknown category is not an error case of this function.
- EventEdit.CreateKeepsConsistency: the `...req.body` spread, which copies every key of the body, is reduced to the validated fields plus price and tags. Schema paths such as `registeredUsers` and `isExpired`, and `_id`, sent by a client are not modelled, so the invariant rests on that reduced input.
- EventModel.Construct: "no registrants" and "not expired" hold only for a body without `registeredUsers` or `isExpired`; the input type has no such keys.
- EventEdit.Create: the same reduction; a body carrying `registeredUsers` or `isExpired` would store them, which the model does not capture.
- EventEdit.Update: the keys `createdAt` and `_id` are not modelled. A `registeredUsers` key is modelled (`EventEdit.RegistrantsResetBreaksMirror`), and the preservation lemmas hold only for bodies without it.
- Registration entries' `_id` (the subdocument id) and the documents' `_id` generation: ids are given by the caller.
- EventEdit.Truthy: update bodies are taken as typed JSON values (a number for the seat counts and price, a boolean for `isExpired`). A string such as `"0"` or `"false"` sent for those keys is truthy in the source and cast by Mongoose on assignment. So `{"availableSeats": "0"}` stores 0 free seats, `{"price": "0"}` stores price 0, and `{"isExpired": "false"}` un-expires an event dated in the future. The model cannot express these bodies.
- EventEdit.Update: for the same reason, updates whose values are strings that Mongoose casts to numbers or booleans are not modelled.
- Text.Lower: only ASCII letters are lower-cased. JavaScript's full Unicode case mapping is not modelled.
- Birthdates are integers. No date parsing is modelled.
- Sorting: ties between equal dates may come out in any order. MongoDB's tie order and stability are not modelled.
- Logging (`console.log`) has no effect and is left out.
- The middlewares `src/middleware/auth.js` and `src/middleware/adminAuth.js` are not part of this model. The user id and role they put on the request are parameters of the handlers. `src/middleware/userAuth.js`, the authentication routes (`src/routes/auth/authRoutes.js`), login and signup are not part of this model either.
- ProfileController.CreateOnlyOnce: states which reasons the repeat create and the update give, but not their status codes.
- RoleAdmin.ChangeRole: assumes that the email in the query is normalised by the schema's setters before it is compared, and that stored emails are unique (`UniqueEmails`, the schema's `unique` index).
