# regulus registration core, in Dafny

regulus is a Flask application for scheduling professional-development events
("courses"). Users register for seats in capacity-limited courses. Presenters and
admins manage attendance and presenters. Attended events add up to a certificate
of whole hours. A Google Apps Script webhook mirrors every registration change
onto the course's Google Calendar event.

This project models the core of that system as pure functions over an
immutable store:

- **Store** (`Models.Store`). It holds:
  - courses by id, with `course_size`, `ext_calendar` and `active`;
  - users in query order, with an integer tier (1 SuperAdmin, 2 Presenter,
    3 Observer, 4 default);
  - the role-name table;
  - registrations keyed by `(course_id, user_id)` with an `attended` flag, in
    row order;
  - the presenter edges;
  - the accommodation notes.
- **Invariants.** `Models.Wellformed` states the schema's guarantees: unique
  keys, unique emails, unique calendar ids, and foreign keys that exist.
  `Models.WithinCapacity` states that no course holds more registrations than
  seats.
- **Handlers.** Each HTTP handler maps the store, the caller (`Access.Principal`)
  and the request to an `Access.Outcome`. An outcome is the new store, a
  response or a failure code, and the webhook calls the handler made. Those
  calls are recorded as sync intents (`{method, eventId, userId}`); nothing is
  sent.
- **Failure codes.** 401, 403, 404, 409 and 422 are the handlers' own aborts.
  500 stands for an exception the code does not catch:
  - attribute access on `None` or on an anonymous user;
  - a `KeyError`;
  - a primary-key violation at commit.

  A 500 leaves the store at its last commit.
- **Helpers.** The model also covers:
  - the authorization decorators;
  - the user-list and user-detail decision tables;
  - the certificate hours;
  - the navigation menus;
  - find-or-create on login;
  - the "latest resource" selector;
  - the webhook's token check, dispatch and attendee-list edits.

Modules follow the source files: `Base`, `Ordering`, `Models` (app/models.py),
`Access` (app/wrappers.py), `Registration` and `Presenters`
(resources/courses.py), `UserResources` (resources/users.py), `Documents`,
`Webhook` (webhook.js), `Navigation` (app/utils.py), `Auth` and `Home`.

## Model

| member | source | states |
|---|---|---|
| Models.AvailableSize | app/models.py:165-166 | the seats left are the course size minus the number of table positions holding a row of the course, never more than the size, with no clamping at zero |
| Models.CourseRegistrationsCount | app/models.py:165-166 | the course's rows as `registrations.all()` lists them are exactly as many as the table positions that hold one |
| Models.CourseRegistrations | app/models.py:150-155 | a course's registrations are exactly the rows carrying its id |
| Models.AppendTakesOneSeat | app/models.py:165-166 | adding a row takes one seat of its own course and none of any other |
| Models.RemovalFreesOneSeat | app/models.py:165-166 | under the composite key, removing a key frees exactly one seat of that course when the key was present, and none elsewhere |
| Models.WithoutKey | app/models.py:238-249 | removing a key keeps exactly the rows with another key, and afterwards no row has that key |
| Models.FindUser | app/models.py:191-192 | a lookup by id finds a row with that id, and finds nothing exactly when no row has it |
| Models.FindUserByEmail | app/models.py:194 | a lookup by email finds a row with that email, and finds nothing exactly when no row has it |
| Models.FindRegistration | app/models.py:238-249 | a lookup by `(course_id, user_id)` finds a row with that key, and finds nothing exactly when the key is absent |
| Models.FindIsTheOnlyMatch | app/models.py:238-249 | under the composite primary key, every row with a key is the one the lookup returns |
| Models.FindIsTheOnlyUser | app/models.py:192 | with unique ids, the user found by id is the row at any index carrying that id |
| Models.IsEnrolled | app/models.py:206-210 | enrolment holds exactly when a registration for the (user, course) key exists |
| Models.IsAttended | app/models.py:212-217 | defined only for an enrolled user; under the key it is that one registration's `attended` flag |
| Models.EnrolmentState | resources/courses.py:73-81 | the state is `available` exactly when there is no row; otherwise `attended` or `registered` according to the row's flag |
| Models.UpdateAttributes | app/models.py:15-18 | every key in `data` gets its value, the key set grows by exactly those keys, and every other attribute keeps its value |
| Models.CeilHours | app/blueprints/documents_blueprint.py:22 | the hours are the least whole number whose 3600-second multiple covers the duration |
| Models.CeilHoursIsTheCeiling | app/blueprints/documents_blueprint.py:22 | any whole number bracketing the duration that way is the computed ceiling, so the ceiling is unique |
| Models.EventHoursExamples | app/blueprints/documents_blueprint.py:22 | 61 minutes count as 2 hours, one hour as 1, and zero length as 0 |
| Models.EventHours | app/blueprints/documents_blueprint.py:40 | an event counts for its end-minus-start length rounded up to whole hours |
| Models.DeleteUserRow | app/models.py:199-204 | deleting a user removes their row, their registrations and their presenter edges; courses, accommodation notes and the role table are unchanged |
| Models.DeleteUserRowPreservesWellformed | app/models.py:199-204 | the user cascade leaves no dangling registration or edge |
| Models.DeleteCourseRow | app/models.py:150-155 | deleting a course removes it, its registrations and its presenter edges, and keeps every user |
| Models.DeleteCourseRowPreservesWellformed | app/models.py:150-155 | the course cascade leaves no dangling registration or edge |
| Models.FilterPreservesUniqueKeys | app/models.py:238-249 | removing rows never breaks the composite key |
| Models.FilterPreservesUniqueUsers | app/models.py:192-194 | removing users keeps ids and emails unique |
| Models.CourseOrderIsStrictWeak | app/models.py:171-172 | ordering courses by `starts` is a strict weak order, so `sorted` is well defined |
| Models.UserOrderIsStrictWeak | app/models.py:222-223 | ordering users by the last space-separated word of the name is a strict weak order |
| Models.SortCourses | app/models.py:171-172 | sorting courses permutes them into non-decreasing start times |
| Models.SortUsers | app/models.py:222-223 | sorting users permutes them so that no later user's last name sorts before an earlier one's |
| Ordering.SortBy | app/models.py:168-172 | sorting by a strict weak order gives a permutation of the input that is ordered |
| Ordering.Insert | app/models.py:168-172 | inserting adds exactly the one element to the list's contents |
| Ordering.InsertSorted | app/models.py:168-172 | inserting into an ordered list keeps it ordered |
| Ordering.LexLessIrreflexive | app/models.py:222-223 | string comparison is irreflexive |
| Ordering.LexLessTransitive | app/models.py:222-223 | string comparison is transitive |
| Ordering.LexLessTrichotomy | app/models.py:222-223 | any two strings are equal or ordered one way or the other |
| Ordering.SplitJoinRoundTrip | app/models.py:223 | `split(" ")` loses nothing: joining the parts with a space gives the name back |
| Ordering.SplitWithoutSeparator | app/models.py:223 | a name without a space splits into itself |
| Ordering.LastNameIsTail | app/models.py:223 | the last name is a space-free suffix of the name, preceded by a space when shorter than the name |
| Ordering.LastNameAfterSpace | app/models.py:219-220 | a name made of some text, a space and a space-free word has that word as its last name |
| Access.Restricted | app/wrappers.py:6-17 | anonymous gets 401; a signed-in caller gets 403 exactly when their tier is 3 or 4, and proceeds otherwise |
| Access.AdminOrSelf | app/wrappers.py:22-33 | anonymous gets 401; a signed-in caller proceeds exactly when they are tier 1 or the requested user, and gets 403 otherwise |
| Access.AdminOnly | app/wrappers.py:38-49 | anonymous gets 401; a signed-in caller proceeds exactly when they are tier 1 |
| Access.AnonymousIsUnauthorizedEverywhere | app/wrappers.py:13-14 | all three guards give 401 to an anonymous caller before any tier check |
| Access.AdminOnlyIsStrictest | app/wrappers.py:44-49 | whoever passes `admin_only` also passes `restricted` and `admin_or_self` |
| Access.RestrictedMeansStaff | app/wrappers.py:6-17 | among the four tiers, `restricted` admits exactly SuperAdmins and Presenters |
| Access.AdminOrSelfIsOwnership | app/wrappers.py:28-33 | every user may act on themself, and a non-admin may act on nobody else |
| Registration.Register | resources/courses.py:652-733 | see the four points below this table |
| Registration.FindAfterAppend | resources/courses.py:682-684 | a row appended for a key no row held is the one a lookup of that key finds |
| Registration.RegisterCard | resources/courses.py:715-725 | a successful register renders one seat fewer and the state `registered` |
| Registration.RegisterPreservesWellformed | resources/courses.py:681-693 | register keeps the schema invariants: the new key is fresh and its foreign keys exist |
| Registration.RegisterRespectsCapacity | resources/courses.py:681-684 | register never takes a course past its size |
| Registration.RegisterTwiceAddsNoRow | resources/courses.py:681-710 | registering again for a held key fails and changes nothing, because of the seat gate or the primary key |
| Registration.Cancel | resources/courses.py:759-812 | see the points below this table |
| Registration.CancelFreesOneSeat | resources/courses.py:791 | cancel frees exactly one seat of its course and none of any other |
| Registration.CancelPreservesWellformed | resources/courses.py:791 | cancel keeps the schema invariants |
| Registration.CancelLeavesSeat | resources/courses.py:779-791 | after a cancel the caller still exists, holds no row for the course, and the course has a seat free |
| Registration.CancelThenRegister | resources/courses.py:652-812 | cancelling and registering again succeeds and leaves exactly one row for the key, unattended: the lookup finds it and the keys stay unique |
| Registration.FlipAttendance | resources/courses.py:601-602 | exactly the course's rows whose user is selected have their flag negated; keys, order and all other rows are unchanged |
| Registration.FlipTwiceRestores | resources/courses.py:754 | negating twice restores the rows, so the update toggles rather than sets |
| Registration.UpdateAttendance | resources/courses.py:735-757 | a missing course or registration gives 404 and changes nothing; an existing registration of an existing course always succeeds, negating only that one row's flag and returning the negated row; no call is made |
| Registration.UpdateAttendanceTwiceRestores | resources/courses.py:754 | two identical attendance updates restore the store |
| Registration.BulkUpdateAttendance | resources/courses.py:575-605 | 404 for a missing course, 500 for a missing `user_ids` and 422 for a non-list; a list on an existing course always succeeds, negating exactly the listed users' rows of the course and returning the course's rows |
| Registration.FlipPreservesWellformed | resources/courses.py:601-602 | toggling attendance keeps the schema invariants |
| Registration.AddEach | resources/courses.py:632-640 | the loop only appends, at most one row per listed id, each unattended, of this course and for an existing listed user |
| Registration.AddOne | resources/courses.py:633-638 | one step of the loop either changes nothing, or appends one unattended row for an existing user who had none in the course; an existing user always ends up registered |
| Registration.AddOnePreservesUnique | resources/courses.py:633-638 | one step of the loop never adds a second row for a key |
| Registration.AddEachSeats | resources/courses.py:632-640 | the loop leaves every other course's rows alone and adds at most one seat per listed id |
| Registration.AddEachCovers | resources/courses.py:632-640 | every listed id that names a user ends up registered |
| Registration.AddEachPreservesUnique | resources/courses.py:632-640 | the loop never adds a second row for a key |
| Registration.BulkAdd | resources/courses.py:607-648 | see the points below this table |
| Registration.BulkAddKeepsForeignKeys | resources/courses.py:607-648 | every row after a bulk add names an existing course and user |
| Registration.BulkAddWithinCapacity | resources/courses.py:607-648 | a bulk add fills no course past its size |
| Registration.BulkAddPreservesInvariants | resources/courses.py:607-648 | bulk add keeps every course within its size and the schema invariants |
| Registration.CapacityBoundaryScenario | resources/courses.py:652-812 | in a two-seat course two users register, the third gets 409, and after the first cancels the third gets the freed seat |
| Registration.ScenarioRegisters | resources/courses.py:681-693 | in the two-seat scenario a user without a row takes one seat whenever one is left, and the card shows one seat fewer |
| Registration.ScenarioFull | resources/courses.py:652-733 | in the two-seat scenario, two registrations leave no seat |
| Registration.ScenarioCancelShape | resources/courses.py:779-791 | cancelling the first user's row there succeeds, changes only the rows, and leaves none for the third user |
| Registration.ScenarioCancels | resources/courses.py:779-791 | in the full two-seat scenario, cancelling the first user's row leaves one seat and touches no other user |
| Presenters.PromotedTier | resources/courses.py:484-486 | promotion yields tier 1 or 2: staff tiers are kept and any other tier becomes 2 |
| Presenters.PromotionRule | resources/courses.py:524-526 | promotion never demotes a SuperAdmin and is idempotent |
| Presenters.PromoteAll | resources/courses.py:479-486 | promoting the listed users changes tiers only: same rows, ids and emails, listed users promoted |
| Presenters.PromoteAllUniqueIds | resources/courses.py:484-486 | promotions keep user ids unique |
| Presenters.NoPromotionNeeded | resources/courses.py:484-486 | promoting a user who is already staff changes no row |
| Presenters.PromoteAllStaffNoop | resources/courses.py:484-486 | listing a user again who is already staff after earlier promotions changes no row |
| Presenters.FindUserPromoteAll | resources/courses.py:479-486 | a lookup after the promotions finds the same user, promoted exactly when listed |
| Presenters.CommitFailsSplit | resources/courses.py:484-500 | committing the pending edges in two batches fails exactly when one commit of all of them would |
| Presenters.CommitFailsGrows | resources/courses.py:487-500 | a batch of edges that fails to commit still fails with more edges pending |
| Presenters.ListsArePrefixes | resources/courses.py:479-498 | the edges and the patch calls for a list are a prefix of those for any extension of that list |
| Presenters.PresentersLoopOkValue | resources/courses.py:500-502 | when the loop succeeds, the ids it returns are exactly the course's presenters in the final store |
| Presenters.PresentersLoopSpec | resources/courses.py:479-500 | the loop with its intermediate commits equals one commit of all listed edges: success exactly when no listed edge exists or repeats; on success every listed user is promoted, the edges are added and one patch call is made per listed user; on failure the calls made are a prefix of those |
| Presenters.AddPresenters | resources/courses.py:458-502 | a missing list gives 500, a non-list 422 and a missing course 404, each with nothing changed |
| Presenters.AddPresentersSpec | resources/courses.py:458-502 | for a list body and an existing course, the handler's outcome is the one-commit reference outcome |
| Presenters.AddPresentersExistingEdgeFails | resources/courses.py:487-500 | listing a user who already presents the course fails with 500 |
| Presenters.AddPresentersFreshSucceeds | resources/courses.py:479-500 | distinct ids, none presenting yet, always succeed |
| Presenters.AddPresenter | resources/courses.py:506-532 | see the points below this table |
| Presenters.RemovePresenter | resources/courses.py:534-553 | the intended removal: 404 for a missing course or user, 500 when the user does not present the course; otherwise only that edge is removed and no tier changes |
| Presenters.FirstEqual | resources/courses.py:550 | the position `list.remove` takes out: the first element `User.__eq__` calls equal to the user, or none when no element is |
| Presenters.RemovePresenterAsWritten | resources/courses.py:534-553 | the removal as written: 404 for a missing course or user; 500 exactly when no loaded presenter shares the user's surname; otherwise the first presenter sharing it loses their edge, and so does the user |
| Presenters.RemovePresenterAsWrittenAgrees | resources/courses.py:550 | when no other presenter of the course shares the user's surname, the code as written and the intended removal give the same outcome |
| Presenters.RemovePresenterAsWrittenOk | resources/courses.py:550-551 | once the user and the first equal presenter are known, both edges go and the request succeeds |
| Presenters.SmithsShareASurname | app/models.py:219-220 | the three users of the scenario compare equal under `User.__eq__` |
| Presenters.SmithsLoaded | resources/courses.py:550 | the scenario's loaded list is exactly the course's presenters |
| Presenters.SmithsFound | resources/courses.py:545 | the scenario's users are found by their ids |
| Presenters.RemovePresenterAsWrittenDropsNamesake | resources/courses.py:550 | deleting the second of two presenters named Smith takes both edges, where the intended removal keeps the first |
| Presenters.RemovePresenterAsWrittenTakesNamesake | resources/courses.py:550 | deleting a Smith who presents nothing succeeds and takes another Smith's edge, where the intended removal answers 500 |
| Presenters.AddThenRemovePresenter | resources/courses.py:506-553 | adding a new presenter and removing them restores the edges but keeps the promotion |
| Presenters.AddPresenterPreservesWellformed | resources/courses.py:506-532 | adding a presenter keeps the schema invariants |
| Presenters.PromoteAllAgain | resources/courses.py:484-486 | promoting one more user on top of earlier promotions is promoting the extended list |
| Presenters.PromoteAllKeepsRows | resources/courses.py:484-486 | promotion keeps ids, emails and the set of users |
| UserResources.ListUsers | resources/users.py:35-51 | see the points below this table |
| UserResources.Selected | resources/users.py:43-48 | the query keeps exactly the users of the requested tier, or every user when no tier is given |
| UserResources.ListUsersHidesAdmins | resources/users.py:40-42 | a non-admin's list never contains a SuperAdmin |
| UserResources.GetUserAsWritten | resources/users.py:84-88 | staff may read any user; any other caller only when `user_id is current_user.id` holds, which for ints is equality inside CPython's small-int cache |
| UserResources.GetUser | resources/users.py:83-88 | staff, or the user themself, read the record (`None` when missing); anyone else gets 403 |
| UserResources.GetUserOwnRecord | resources/users.py:83 | every user may read their own record, whatever their id |
| UserResources.GetUserAsWrittenIsNarrower | resources/users.py:84 | the code as written allows a subset of what the intended rule allows, and agrees with it on ids -5 to 256 |
| UserResources.GetUserAsWrittenRefusesSelf | resources/users.py:84 | a default-tier user with id 300 is refused their own record as written, and served it by the intended rule |
| UserResources.PutUser | resources/users.py:101-113 | anonymous gets 500; a caller neither admin nor the user gets 403 before the body is read; a bad body gets 422, a missing user 404 and a taken email 500; a permitted edit of an existing user to a free email always succeeds, and changes only that user's given fields |
| UserResources.ApplyEdit | resources/users.py:102-108 | an edit replaces exactly the fields it gives, keeping the id and tier |
| UserResources.ReplaceUser | resources/users.py:103-108 | the updated row replaces the row with its id and no other |
| UserResources.ReplaceUserKeepsIds | resources/users.py:101-113 | rewriting a row keeps the set of ids present, and their uniqueness |
| UserResources.ReplaceUserKeepsEmails | resources/users.py:101-113 | rewriting a row with an email no other user has keeps emails unique |
| UserResources.ReplaceUserKeepsTiers | resources/users.py:101-113 | rewriting a row with one of the same tier keeps every row's tier |
| UserResources.PutUserPreservesWellformed | resources/users.py:101-113 | an update keeps ids, tiers and unique emails |
| UserResources.DeleteUser | resources/users.py:127-143 | see the points below this table |
| UserResources.DeleteUserKeepsCaller | resources/users.py:127-143 | a successful delete keeps the schema invariants and the admin who made it |
| UserResources.ConfirmedFor | resources/users.py:261-272 | staff or self get exactly the user's attended registrations, each a stored row paired with its stored course and that course's whole hours; anyone else gets 403 |
| UserResources.WithHours | resources/users.py:266-267 | every registration is paired with its course and the course's whole hours; a registration whose course is missing fails with 500 |
| UserResources.ConfirmedCovers | resources/users.py:262-267 | pairing with courses keeps the registrations, their order and their hours |
| UserResources.ConfirmedSucceedsWhenAllowed | resources/users.py:261-267 | in a well-formed store an allowed request always succeeds |
| Documents.SelfOnly | app/blueprints/documents_blueprint.py:15-16 | only the user themself proceeds; another user gets 403 and an anonymous caller 500 |
| Models.RegistrationsOf | app/blueprints/documents_blueprint.py:19 | the user's registrations are exactly their rows, attended or not |
| Models.AttendedOf | app/blueprints/documents_blueprint.py:20 | the listed events are exactly the user's attended rows, never more than all their rows |
| Models.AttendedIsSubset | app/blueprints/documents_blueprint.py:19-20 | a user never has more attended events than registrations |
| Documents.CollectEvents | app/blueprints/documents_blueprint.py:21-24 | every attended row becomes its course with its whole hours, in order, and the total is their sum; a row whose course is gone fails |
| Documents.TotalHoursBounds | app/blueprints/documents_blueprint.py:21-23 | the total never falls short of the time attended, and exceeds it by less than one hour per event |
| Documents.GetDocuments | app/blueprints/documents_blueprint.py:13-28 | self only; the page counts all the user's registrations, lists the attended ones with their hours, and totals them; a well-formed store never fails |
| Documents.GeneratePdf | app/blueprints/documents_blueprint.py:31-51 | self only; line i is the course of the user's i-th attended registration with its hours, the total is the sum of the lines, and a well-formed store always succeeds |
| Documents.GenerateSinglePdf | app/blueprints/documents_blueprint.py:53-72 | self only; an event the user has not attended gives 500; the user's own attended event in a well-formed store always prints, as one line whose hours are the total |
| Webhook.Dispatch | webhook.js:36-48 | a wrong token is refused whatever the method; with the right token, `post`, `patch`, `pop`, `put` and `delete` each reach their handler and any other method reaches none |
| Webhook.ParamsOfIntent | webhook.js:26-31 | the parameters the script reads from a backend sync request: the method and event id come through, and `userIds` is absent because the backend sends `userId` |
| Webhook.DoPost | webhook.js:21-50 | a wrong token writes the Forbidden record with status 403; an unknown method writes nothing; otherwise the handler's value is written |
| Webhook.TokenGuardsEveryRoute | webhook.js:36-48 | changing the method never gets past a wrong token, and the right token is never refused |
| Webhook.CreateEventArgs | webhook.js:57-61 | the insert always sends `sendUpdates: 'all'` and sends `conferenceDataVersion: 1` exactly when the body has conference data; a missing body throws |
| Webhook.RegistrationResourceAsWritten | webhook.js:82-106 | as written, `patch` gives the old list followed by the given entries, or just those entries when there is no list; `pop` throws on every non-empty or missing list |
| Webhook.PatchAsWrittenNeverAddsUser | webhook.js:28 | a patch request from the backend appends `undefined` to an existing list and never the user |
| Webhook.PopAsWrittenThrows | webhook.js:100-106 | a pop request from the backend throws on every non-empty list, and on a list of attendees, as the Calendar service returns, the error is `ReferenceError` |
| Webhook.RegistrationReply | webhook.js:108-119 | a patch the Calendar service accepts gives OK 200 and one it throws on gives Error 500; resource errors escape |
| Webhook.RegistrationAttendees | webhook.js:91-105 | intended edit: `patch` appends the user after the old list; `pop` keeps exactly the entries not matching the email |
| Webhook.UserRegistration | webhook.js:82-120 | intended handler: after a patch the user is an attendee, after a pop no entry matches them, and the reply is 200 or 500 by the service's answer |
| Webhook.PopUndoesPatch | webhook.js:91-105 | popping a user just patched in restores the original list |
| Webhook.PopKeepsOrder | webhook.js:100-105 | pop keeps the non-matching entries in their order (a subsequence), drops every matching one, and kept plus removed account for the whole list |
| Navigation.MenuForShowsPermitted | app/utils.py:83-86 | a role's menu holds exactly the navigation items whose element its permissions list |
| Navigation.MenuForKeepsOrder | app/utils.py:83-86 | a role's menu keeps the items in the order of `navigation_items` |
| Navigation.RoleNamed | app/utils.py:23-40 | exactly the names `User`, `Presenter` and `SuperAdmin` have permissions |
| Navigation.FilterNavigation | app/utils.py:43-86 | a test that rejects the presenter and reports elements keeps, in menu order, whichever of admin, users, create and logout it accepts |
| Navigation.RoleElements | app/utils.py:23-86 | the elements a role sees are, in menu order, those of admin, users, create and logout that its permissions list |
| Navigation.UserElements | app/utils.py:23-86 | the role `User` sees the logout element alone |
| Navigation.PresenterElements | app/utils.py:23-86 | the role `Presenter` sees admin, create and logout, in that order |
| Navigation.SuperAdminElements | app/utils.py:23-86 | the role `SuperAdmin` sees admin, users, create and logout, in that order |
| Navigation.UserRoleMenu | app/utils.py:23-86 | the `User` menu is the logout entry alone |
| Navigation.PresenterRoleMenu | app/utils.py:23-86 | the `Presenter` menu is the event-management, create-event and logout entries, in that order |
| Navigation.SuperAdminRoleMenu | app/utils.py:23-86 | the `SuperAdmin` menu is the event-management, user-management, create-event and logout entries, in that order |
| Navigation.UserNavigationMenu | app/utils.py:83-86 | a user whose tier has no role row, or whose role the table lacks, gets 500; otherwise their role's menu |
| Navigation.UserMenu | app/utils.py:23-86 | a user whose tier's role row is named `User` gets only the logout entry |
| Navigation.PresenterMenu | app/utils.py:23-86 | a user whose role row is named `Presenter` gets the admin, create and logout entries |
| Navigation.SuperAdminMenu | app/utils.py:23-86 | a user whose role row is named `SuperAdmin` gets the admin, users, create and logout entries |
| Navigation.MenusGrowWithPermissions | app/utils.py:83-86 | a role with more permissions sees a superset of the lesser role's menu, in the same order |
| Navigation.UserMenuWithinPresenterMenu | app/utils.py:23-40 | the User menu is contained, in order, in the Presenter menu |
| Navigation.PresenterMenuWithinSuperAdminMenu | app/utils.py:23-40 | the Presenter menu is contained, in order, in the SuperAdmin menu |
| Navigation.UnreachableItems | app/utils.py:23-81 | no role ever sees the presenter or reports items, and no menu item is `schedule` or `documents` |
| Navigation.UserNavigation | app/utils.py:125-150 | anonymous gets `[]`; a fresh session puts `schedule` at index 0 and `documents` at 1, with hrefs embedding the user's id, before the role menu; a stale session gets the role menu alone |
| Navigation.PersonalItemsNameTheUser | app/utils.py:135-148 | the personal items appear exactly when the session is fresh, and they never link to another user's pages |
| Navigation.FreshNavigation | app/utils.py:135-148 | a fresh session's navigation is the user's two personal entries followed by the role menu |
| Navigation.MenuHoldsNoPersonalItems | app/utils.py:83-86 | no role menu holds anyone's schedule or documents entry |
| Navigation.PersonalItemsDiffer | app/utils.py:138-146 | two different users' schedule entries differ, and so do their documents entries |
| Navigation.PathsDiffer | app/utils.py:138-146 | two users' personal links coincide only when their ids do |
| Base.IntDecimalRoundTrip | app/utils.py:138-146 | every integer reads back from its decimal rendering |
| Base.DecimalInjective | app/utils.py:138-146 | two integers render alike only when they are equal |
| Navigation.UsersToSelect | app/utils.py:112-123 | one option per item, in order, showing the name and carrying the id |
| Navigation.SelectValuesFindTheirRows | app/utils.py:121 | with unique ids, each option's value looks up the very row it came from |
| Auth.NextUserId | app/blueprints/auth_blueprint.py:32-34 | the new row's id is larger than every id in use |
| Auth.LoginUser | app/blueprints/auth_blueprint.py:30-34 | the signed-in user carries the email: the existing row, or a new default-tier user whose id is unused |
| Auth.FindAppendedByEmail | app/blueprints/auth_blueprint.py:32-34 | a new user with an unused email is found by that email after the append |
| Auth.Callback | app/blueprints/auth_blueprint.py:20-42 | a null email gets only the message; a known email changes no row; an unknown one appends exactly one default-tier user; every login records the user's id and the fresh flag in the session, and the menu exactly when it can be built, otherwise the answer is a 500 |
| Auth.CallbackFindsOrCreates | app/blueprints/auth_blueprint.py:30-34 | after a login the email finds the signed-in user: the existing row untouched, tier included, or exactly one new row of tier 4 |
| Models.AppendUserKeepsUnique | app/blueprints/auth_blueprint.py:32-34 | appending a user whose id and email are unused keeps ids and emails unique |
| Auth.CallbackPreservesWellformed | app/blueprints/auth_blueprint.py:30-34 | login keeps ids and emails unique |
| Auth.SecondLoginAddsNothing | app/blueprints/auth_blueprint.py:30-31 | logging in again with the same email adds no row, so there is at most one user per email |
| Auth.Logout | app/blueprints/auth_blueprint.py:45-50 | logout leaves no key in the session |
| Auth.LoginThenLogout | app/blueprints/auth_blueprint.py:45-50 | after login then logout the session holds neither the user's id nor the menu, and the anonymous menu is empty |
| Home.Select | app/blueprints/home_blueprint.py:51-83 | both items present: the more recently published wins and a tie goes to the video; one missing: the other; both missing: the error message; the last branch is unreachable |
| Home.Update | app/blueprints/home_blueprint.py:51-83 | a video request that cannot connect makes the whole answer a 500, even with a blog post at hand; otherwise the selection is made, a message appearing exactly when both fetches failed |
| Home.SelectionIgnoresClock | app/blueprints/home_blueprint.py:63-65 | the age comparison picks the same item whatever the clock says |
| Home.SelectionIsNewest | app/blueprints/home_blueprint.py:60-79 | whenever something was fetched, the shown item is at least as recent as every fetched item |

The rows above that say "see the points below this table" stand for these
contracts:

- `Registration.Register`:
  - An invalid form gives 422. A missing course or user gives 404. No seat
    left gives 409; that happens exactly when the seats left are zero or fewer.
  - No failure changes the store. None of the failures above makes a webhook
    call.
  - Success appends exactly one unattended row for the caller. It adds one
    accommodation note exactly when one was requested, and makes one `patch`
    call carrying the course's calendar id and the caller's email.
  - Conversely, a complete request from an existing user without a row, for a
    course with a seat left, always succeeds.
- `Registration.Cancel`:
  - A missing course gives 500, because it is never checked. A missing
    registration gives 404. A signed-in caller with a row for an existing
    course always succeeds.
  - Otherwise exactly the caller's row for the course is removed and all
    others are kept. One `pop` call is made, and the card shows `available`.
- `Registration.BulkAdd`:
  - A missing key gives 500, a non-list 422 and a missing course 404. A list
    longer than the seats left gives 409, and any list that fits is accepted.
  - Otherwise it appends only unattended rows of this course for existing
    listed users. Every such user ends up registered, other courses are
    untouched, and the course stays within its size.
- `Presenters.AddPresenter`:
  - A missing course or user gives 404.
  - The promotion is committed first, so it persists even when the new edge
    then violates the key and the request fails with 500.
  - On success the edge is added and nothing else changes.
- `UserResources.ListUsers`:
  - Tier 4 gets 401, and a non-admin with no `user_type` gets 401. Tiers 2
    and 3 get the requested tier unless it is 1, which is 422.
  - An admin gets the requested tier, or everyone when no tier is given. An
    admin asking for tier 0 gets 422, because 0 is falsy.
  - The list is sorted by last name.
- `UserResources.DeleteUser`:
  - Anonymous gets 500, a non-admin 401, an admin deleting themself 403, and
    a missing user 404. An admin deleting another existing user always
    succeeds.
  - Otherwise the user is removed with their registrations and edges.

## Left out

- `CourseListAPI.post`, `CourseAPI.put` and `CourseAPI.delete` (creating, editing and deleting events) are not modelled. They depend on the webhook's response shape and on date conversion.
- `CoursePresentersAPI.get`, `CourseAttendeesAPI.get`, `UserListAPI.post`, `UserLocationAPI`, `UserAttendingAPI` and `UserPresentingAPI` are not modelled. They are single queries rendered through schemas.
- Serialisation, templates, PDF rendering and HX headers are not modelled. Results are the values the handlers compute, not their JSON.
- Network calls are not made. The webhook posts are recorded as sync intents. The Calendar service's answers are boolean inputs. The blog and video fetches are optional items, and whether the video request connected at all is a boolean input.
- Concurrency and transactions are not modelled: requests are sequential. The model adds no atomicity the code lacks. A failing request leaves the store at its last commit.
- `Models.EventHours`: durations are whole seconds and the ceiling is exact integer division. The source divides floats.
- `Presenters.PresentersLoopSpec`: it assumes a duplicate presenter edge is rejected at the next commit, that is at the next promotion or at the final commit. With autoflush, `User.query.get` of a user not yet loaded flushes the pending edges first and fails there, before any later webhook call. In that case the model may record a patch call for every listed staff user after the failing one, up to the next commit.
- `UserResources.DeleteUser`: the query-string schema validation of the delete request is not modelled.
- `UserResources.ListUsers`: the `user_type` query argument is an optional integer. A non-integer `user_type`, which the query-string schema rejects with 422 before the handler runs (for anonymous callers too), is not modelled.
- `Registration.Register`, `Registration.Cancel`, `Presenters.PresentersLoop` and `Presenters.AddPresenters`: the webhook post is assumed not to raise. A connection error or timeout would be an uncaught exception, so a 500. In `Registration.Register` with an accommodation requested, the row and the note are committed before the post, so the source could answer 500 with them stored; the model's "every failure leaves the store as it was" does not cover that case.
- `UserResources.PutUser`: it models the name and email fields only. Location and role changes through the same schema are not modelled.
- `Presenters.RemovePresenterAsWritten`: the order in which `course.presenters` loads is an input. When the user presents nothing, the backref may ask the flush to delete a row that does not exist; the model shows that commit succeeding.
- `Registration.Cancel`: it removes every row with the caller's key. Under the composite primary key that is exactly the row the source deletes.
- The accommodation note's link to its course is a field. The source uses a secondary table.
- The role-name table is an input. The seed data is not part of this model.
- `Ordering.SortBy`: it is an insertion sort, proved to give an ordered permutation. That Python's `sorted` is stable is not modelled.
- `Auth.NextUserId`: the database assigns the next id as one past the largest in use. The database's actual id policy is not modelled.
- `Auth.Callback`: the OAuth exchange is not modelled; its email and name are inputs. A missing `email` key in the token (a `KeyError`) is not modelled.
- Icons in the navigation items are not modelled.
- `Navigation.UsersToSelect`: it is instantiated on user rows. The source accepts any rows with `name` and `id`.
- Application wiring is not modelled. That covers caching (`cache.cached`), logging, configuration and migrations.

## Findings

| source | as written | input that shows it | evidently intended | confidence | as-written member | corrected member |
|---|---|---|---|---|---|---|
| webhook.js:28 | `doPost` reads `params.userIds` and `patch` appends it. The backend's body (resources/courses.py:700-708) names the user in `userId`, so the value is `undefined`. | A `patch` intent from a successful register, for an event with attendees. The list gains an `undefined` entry. The registering user is never added. | Append the user named by `userId` to the attendee list. | not executed | Webhook.PatchAsWrittenNeverAddsUser | Webhook.UserRegistration |
| webhook.js:102 | The `pop` filter compares with `userId`, which no scope binds. | A `pop` intent from a successful cancel, for an event with at least one attendee. The callback throws `ReferenceError` outside the `try`, so nobody is removed. | Remove every attendee whose email is the cancelling user's, and keep the rest in order. | not executed | Webhook.PopAsWrittenThrows | Webhook.RegistrationAttendees |
| resources/courses.py:550 | `course.presenters.remove(user)` uses `User.__eq__` (app/models.py:219-220), which compares surnames only. | Course 7 has presenters Ann Smith (id 1) and Bob Smith (id 2), loaded in that order. Deleting presenter 2 takes out Ann's edge along with Bob's. Deleting user 3, Cat Smith, who presents nothing, takes out Ann's edge instead of failing. | Remove exactly the requested user's edge, and fail when they do not present the course. | not executed | Presenters.RemovePresenterAsWrittenDropsNamesake | Presenters.RemovePresenter |
| resources/users.py:84 | Self-access is tested with `user_id is current_user.id`. For ints this is identity, which holds only for CPython's cached small ints (-5 to 256). | A default-tier user with id 300 requests `/users/300` and gets 403. | Self-access compares ids with `==`, as `UserAPI.put` does at line 101. | not executed | UserResources.GetUserAsWrittenRefusesSelf | UserResources.GetUser |
