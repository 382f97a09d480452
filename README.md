# Campus services: verified model of the domain logic

This project models, in Dafny, the domain logic of a set of Spring microservices for a campus
platform: events and their subscriptions, schools, communities, students, and the user service's
roles and security adapter. The model covers the logic held in the JPA entities and in the
service methods that enforce guards, uniqueness rules and counters:

- `Event` (module `Events`): the registration gate (`isRegistrationOpen`, `isFull`,
  `canRegister`), the participant counter and the `@PrePersist`/`@PreUpdate` hooks.
- `EventSubscription` and `SubscriptionStatus` (modules `EventSubscriptions`,
  `SubscriptionStatuses`): the guards, the lifecycle mutators, the hooks and the check-in code.
- `Role` and `ServiceRole` (modules `Roles`, `RoleServices`): the comma-separated permission
  string, the role store with its uniqueness, delete refusals, single default role and the
  idempotent seeding of default roles.
- `CustomUserDetailsService` (module `UserDetails`): the authorities derived from a role and the
  account flags handed to the authentication framework.
- `School`, `Community`, `ServiceCommunity` (modules `Schools`, `Communities`,
  `CommunityServices`): status/flag pairs, saturating counters, slug generation, the community
  store, top-N and total member queries.
- `Student` and `ServiceStudent` (modules `Students`, `StudentServices`): eligibility, academic
  level, full name, student code, the creation defaults, the partial update, soft delete,
  graduation and the year arithmetic of the derived fields.

Shared modules model the Java library behaviour the code relies on: `Wrappers` (a nullable
value is an `Option`, a thrown exception an `Err`), `JavaInt` (32-bit `int` arithmetic that
wraps around), `JavaString` (`trim`, `contains`, `replace`, `split` and `isBlank` as
`java.lang.String` defines them, over ASCII), `Decimal` (decimal digits and `%05d`-style
padding), `JavaTime` (instants and days as integers), `Counters` (the null-tolerant increment and
saturating decrement shared by `Event` and `School`) and `Slugs` (the regular-expression pipeline
that all three `generateSlug` methods share, over ASCII).

Modelling conventions:

- Every entity is a `class` whose fields are the Java fields the logic reads or writes. A boxed
  `Integer`, `Boolean`, `String` or date is an `Option`; `None` is `null`.
- Unboxing a null in an entity predicate throws in Java. Entity predicates
  state this as a `requires` (the `...Defined` predicates). Service methods return
  `Err(NullValue)` instead.
- A JPA repository is a class holding `map<int, Entity>` and the next id. Its `Valid()` states
  what the service keeps true: ids below the next id, plus the uniqueness the service enforces.
- ModelMapper copies are field-by-field copies.
- `LocalDateTime.now()`, `LocalDate.now().getYear()`, `System.currentTimeMillis()` and
  `Math.random()` become parameters (`now`, `today`, `currentYear`, `millis`, `random`).

## Model

| member | source | states |
|---|---|---|
| `Counters.Incremented` | event-service/src/main/java/com/service/event/entity/Event.java:177-182 | a null count becomes 1; a count below `Integer.MAX_VALUE` goes up by exactly one; `MAX_VALUE` wraps to `MIN_VALUE` |
| `Counters.Decremented` | event-service/src/main/java/com/service/event/entity/Event.java:184-190 | the result is never negative: a positive count drops by exactly one, a null or non-positive count becomes 0 |
| `Counters.DecrementUndoesIncrement` | event-service/src/main/java/com/service/event/entity/Event.java:177-190 | decrementing after incrementing a count n with 0 <= n < MAX_VALUE restores n |
| `Events.Event.constructor` | event-service/src/main/java/com/service/event/entity/Event.java:62-68 | a new event starts as DRAFT with 0 participants and no capacity, deadline, slug or timestamps |
| `Events.Event.IncrementParticipants` | event-service/src/main/java/com/service/event/entity/Event.java:177-182 | the count becomes `Incremented` of the old count; no capacity check is made |
| `Events.Event.DecrementParticipants` | event-service/src/main/java/com/service/event/entity/Event.java:184-190 | the count becomes `Decremented` of the old count, so it is never negative |
| `Events.Event.OnCreate` | event-service/src/main/java/com/service/event/entity/Event.java:126-145 | null timestamps, count and status are filled with now, now, 0 and DRAFT and set values kept; a blank slug becomes `generateSlug(title)`, a well-formed slug |
| `Events.Event.OnUpdate` | event-service/src/main/java/com/service/event/entity/Event.java:147-150 | `updatedAt` becomes now |
| `Events.Event.IsRegistrationOpen` | event-service/src/main/java/com/service/event/entity/Event.java:162-165 | registration is open with no deadline, or strictly before it |
| `Events.Event.IsFull` | event-service/src/main/java/com/service/event/entity/Event.java:167-169 | an event is full when it has a capacity and the count has reached it |
| `Events.Event.CanRegister` | event-service/src/main/java/com/service/event/entity/Event.java:171-175 | an event takes registrations when it is ACTIVE, not full and open |
| `Events.OnlyActiveEventsRegister` | event-service/src/main/java/com/service/event/entity/Event.java:171-175 | an event whose status is not ACTIVE (DRAFT, CANCELLED, COMPLETED, ARCHIVED or null) can never register |
| `Events.UncappedEventNeverFull` | event-service/src/main/java/com/service/event/entity/Event.java:167-169 | an event with null capacity is never full |
| `Events.AdmissionStaysWithinCapacity` | event-service/src/main/java/com/service/event/entity/Event.java:167-182 | when `canRegister()` holds, incrementing leaves the count at most the capacity, if one is set |
| `Events.IncrementIgnoresCapacity` | event-service/src/main/java/com/service/event/entity/Event.java:177-182 | incrementing a full event pushes its count past the capacity, so the bound holds only for callers that check `canRegister()` first |
| `Events.DeadlineIsExclusive` | event-service/src/main/java/com/service/event/entity/Event.java:162-165 | registration is closed at the deadline itself: it is open only strictly before it |
| `SubscriptionStatuses.SubscriptionStatus.IsActive` | event-service/src/main/java/com/service/event/enums/SubscriptionStatus.java:23-25 | the statuses under which a subscription is still pending or may still attend; `CanCancel` accepts exactly these |
| `SubscriptionStatuses.SubscriptionStatus.IsCompleted` | event-service/src/main/java/com/service/event/enums/SubscriptionStatus.java:27-29 | the statuses under which the event is over for the subscriber |
| `SubscriptionStatuses.ClassifiedUnlessRejectedOrCancelled` | event-service/src/main/java/com/service/event/enums/SubscriptionStatus.java:3-29 | every status is active or completed except REJECTED and CANCELLED, and both of those are neither |
| `SubscriptionStatuses.ActiveAndCompletedDisjoint` | event-service/src/main/java/com/service/event/enums/SubscriptionStatus.java:23-29 | no status is both active and completed |
| `SubscriptionStatuses.TerminalStatusesUnclassified` | event-service/src/main/java/com/service/event/enums/SubscriptionStatus.java:3-29 | REJECTED and CANCELLED are neither active nor completed |
| `EventSubscriptions.CheckInCode` | event-service/src/main/java/com/service/event/entity/EventSubscription.java:205-209 | the check-in code built from the clock and the random draw; its shape is stated by `CheckInCodeShape` |
| `EventSubscriptions.CheckInCodeShape` | event-service/src/main/java/com/service/event/entity/EventSubscription.java:205-209 | a generated check-in code is `EVT` followed by 5 to 8 digits, ends in the four-digit random draw, and is not blank |
| `EventSubscriptions.DigitsAfterPrefix` | event-service/src/main/java/com/service/event/entity/EventSubscription.java:205-209 | the millisecond digits followed by the padded draw are all digits |
| `EventSubscriptions.EventSubscription.constructor` | event-service/src/main/java/com/service/event/entity/EventSubscription.java:41-95 | a new subscription is PENDING, not attended, without certificate or feedback, active, with no event and no dates |
| `EventSubscriptions.EventSubscription.Approve` | event-service/src/main/java/com/service/event/entity/EventSubscription.java:172-175 | status becomes APPROVED and the approval date now, from any prior status |
| `EventSubscriptions.EventSubscription.Cancel` | event-service/src/main/java/com/service/event/entity/EventSubscription.java:177-182 | status CANCELLED, reason and date recorded, `isActive` false; afterwards `canCancel()` is false |
| `EventSubscriptions.EventSubscription.CheckIn` | event-service/src/main/java/com/service/event/entity/EventSubscription.java:184-188 | attended becomes true and both the attendance date and the check-in time become now; afterwards `canCheckIn()` is false |
| `EventSubscriptions.EventSubscription.CheckOut` | event-service/src/main/java/com/service/event/entity/EventSubscription.java:190-192 | the check-out time becomes now |
| `EventSubscriptions.EventSubscription.SubmitFeedback` | event-service/src/main/java/com/service/event/entity/EventSubscription.java:194-198 | rating and comment are stored and `feedbackSubmitted` set; afterwards `canSubmitFeedback()` is false |
| `EventSubscriptions.EventSubscription.IssueCertificate` | event-service/src/main/java/com/service/event/entity/EventSubscription.java:200-203 | only the certificate flag and its date change |
| `EventSubscriptions.EventSubscription.OnCreate` | event-service/src/main/java/com/service/event/entity/EventSubscription.java:114-136 | null timestamps, registration date, status and `isActive` get now, now, now, PENDING and true and set values are kept; a blank check-in code is generated, a set one kept, and the code is never blank afterwards |
| `EventSubscriptions.EventSubscription.FillDefaults` | event-service/src/main/java/com/service/event/entity/EventSubscription.java:116-130 | the null-only defaults of `onCreate` |
| `EventSubscriptions.EventSubscription.FillCode` | event-service/src/main/java/com/service/event/entity/EventSubscription.java:133-135 | the code is generated only when blank, and is not blank afterwards |
| `EventSubscriptions.EventSubscription.OnUpdate` | event-service/src/main/java/com/service/event/entity/EventSubscription.java:138-152 | `updatedAt` becomes now; each of the approval, cancellation and attendance dates is filled only when it is null and its status or flag holds, and never overwritten |
| `EventSubscriptions.EventSubscription.CanCancel` | event-service/src/main/java/com/service/event/entity/EventSubscription.java:155-159 | cancellation is allowed while the subscription is pending, approved or waitlisted |
| `EventSubscriptions.EventSubscription.CanCheckIn` | event-service/src/main/java/com/service/event/entity/EventSubscription.java:161-166 | check-in is allowed for an approved, not yet attended subscription whose event is set and still takes registrations |
| `EventSubscriptions.EventSubscription.CanSubmitFeedback` | event-service/src/main/java/com/service/event/entity/EventSubscription.java:168-170 | feedback is allowed once, after attendance |
| `EventSubscriptions.CanCancelIffActiveStatus` | event-service/src/main/java/com/service/event/entity/EventSubscription.java:155-159 | `canCancel()` holds exactly when the status is one that `SubscriptionStatus.isActive` accepts |
| `EventSubscriptions.CheckInMeansCancellableOnOpenEvent` | event-service/src/main/java/com/service/event/entity/EventSubscription.java:155-166 | a subscription that can check in can still be cancelled and its status is active, and its event is non-null, ACTIVE, open for registration and below any capacity |
| `EventSubscriptions.FullEventBlocksCheckIn` | event-service/src/main/java/com/service/event/entity/EventSubscription.java:161-166 | a full event blocks check-in |
| `EventSubscriptions.ClosedRegistrationBlocksCheckIn` | event-service/src/main/java/com/service/event/entity/EventSubscription.java:161-166 | an event past its deadline blocks check-in |
| `EventSubscriptions.CompletedCannotCancel` | event-service/src/main/java/com/service/event/entity/EventSubscription.java:155-159 | a completed subscription (ATTENDED, NO_SHOW, EXPIRED) cannot be cancelled |
| `Slugs.LowerCase` | event-service/src/main/java/com/service/event/entity/Event.java:154 | each character is lowered, the length is kept |
| `Slugs.StripDisallowed` | event-service/src/main/java/com/service/event/entity/Event.java:155 | only characters of `[a-z0-9\s-]` remain, and a string made only of them is unchanged |
| `Slugs.HyphenateSpaces` | event-service/src/main/java/com/service/event/entity/Event.java:156 | no whitespace remains, and a string without whitespace is unchanged |
| `Slugs.CollapseHyphens` | event-service/src/main/java/com/service/event/entity/Event.java:157 | no `--` remains, the first character is kept, and a string without `--` is unchanged |
| `Slugs.Slugify` | event-service/src/main/java/com/service/event/entity/Event.java:154-158 | the result uses only `a-z`, `0-9` and `-`, has no `--`, and is no longer than the title |
| `Slugs.GenerateSlug` | event-service/src/main/java/com/service/event/entity/Event.java:152-159 | a null title gives the empty slug; any result is well formed |
| `Slugs.SlugifyFixesSlugs` | community-service/src/main/java/com/service/community/entity/Community.java:78-84 | a string that is already a slug is returned unchanged |
| `Slugs.SlugCharsSurviveStages` | school-service/src/main/java/com/service/school/entity/School.java:286-293 | each stage of the pipeline leaves a slug unchanged |
| `Slugs.SlugifyIdempotent` | community-service/src/main/java/com/service/community/entity/Community.java:78-84 | generating a slug from a generated slug returns it unchanged |
| `Roles.HasPermissionMeans` | user-service/src/main/java/com/service/user/entity/Role.java:54-57 | `hasPermission(p)` is false for a null or empty string and is plain substring containment otherwise |
| `Roles.WithPermission` | user-service/src/main/java/com/service/user/entity/Role.java:59-64 | after adding a non-empty p, p is contained; a contained p changes nothing; on a null or empty string the result is p itself |
| `Roles.AddPermissionIdempotent` | user-service/src/main/java/com/service/user/entity/Role.java:59-64 | adding the same permission twice gives the same string as adding it once |
| `Roles.AddPermissionKeepsOthers` | user-service/src/main/java/com/service/user/entity/Role.java:59-64 | adding a permission keeps every permission already contained |
| `Roles.PermissionsWithout` | user-service/src/main/java/com/service/user/entity/Role.java:66-73 | removing a permission never makes the string longer |
| `Roles.ReplaceAbsent` | user-service/src/main/java/com/service/user/entity/Role.java:68 | `replace` of a target whose first character never occurs changes nothing |
| `Roles.CleanUpKeeps` | user-service/src/main/java/com/service/user/entity/Role.java:68-71 | the clean-up after removal keeps a comma-free, untrimmable remainder as it is |
| `Roles.RemovalLeaves` | user-service/src/main/java/com/service/user/entity/Role.java:66-73 | when deleting the permission leaves a clean string, that string is the result |
| `Roles.RemoveCutsIntoLongerPermission` | user-service/src/main/java/com/service/user/entity/Role.java:66-73 | removing p from a role holding only a longer permission that starts with p cuts it down to the rest: removal is substring-based |
| `Roles.RemoveCanLeavePermission` | user-service/src/main/java/com/service/user/entity/Role.java:66-73 | removing `ab` from `aabb` leaves `ab`, so the permission is still held after its removal |
| `Roles.InnerOccurrence` | user-service/src/main/java/com/service/user/entity/Role.java:55-56 | containment finds an occurrence that starts inside the string |
| `Roles.TrimKeepsOut` | user-service/src/main/java/com/service/user/service/ServiceRole.java:235 | trimming never introduces a character |
| `Roles.TokensOf` | user-service/src/main/java/com/service/user/service/ServiceRole.java:234-237 | the trimmed, non-empty pieces are no more than the pieces, and each is a non-empty token without comma or surrounding whitespace |
| `Roles.PermissionList` | user-service/src/main/java/com/service/user/service/ServiceRole.java:227-239 | a null or empty string gives no permissions; every listed permission is a non-empty trimmed token without a comma |
| `Roles.TokensOfTokens` | user-service/src/main/java/com/service/user/service/ServiceRole.java:234-237 | pieces that are already tokens are kept, in order |
| `Roles.PermissionListOfJoin` | user-service/src/main/java/com/service/user/service/ServiceRole.java:227-239 | listing the permissions of tokens joined by commas returns exactly those tokens, in order |
| `Roles.SplitOfJoin` | user-service/src/main/java/com/service/user/service/ServiceRole.java:234 | splitting tokens joined by commas returns the tokens |
| `Roles.Role.constructor` | user-service/src/main/java/com/service/user/entity/Role.java:37-43 | a new role has the given name, no permissions, is neither default nor system, and has no users |
| `Roles.Role.AddPermission` | user-service/src/main/java/com/service/user/entity/Role.java:59-64 | the permissions become `WithPermission` of the old ones; a non-empty p is then held, and every permission held before is still held |
| `Roles.Role.RemovePermission` | user-service/src/main/java/com/service/user/entity/Role.java:66-73 | a null string or one not containing p is unchanged; otherwise it becomes `PermissionsWithout`; nullness is kept and the string never grows |
| `RoleServices.DefaultRolesShape` | user-service/src/main/java/com/service/user/service/ServiceRole.java:304-310 | of the five default roles only ADMIN is a system role, and their names are distinct |
| `RoleServices.ClearedDefault` | user-service/src/main/java/com/service/user/service/ServiceRole.java:248-251 | a role whose flag is cleared by `setAsDefault` is no longer default; a flag that was not true is left as it was |
| `RoleServices.ApplyRoleUpdate` | user-service/src/main/java/com/service/user/service/ServiceRole.java:101-113 | each field of the update that is null leaves the role's field unchanged; each other one replaces it |
| `RoleServices.NewSeedRole` | user-service/src/main/java/com/service/user/service/ServiceRole.java:314-319 | a fresh role carries the seed's name, description, permissions and flags |
| `RoleServices.RoleService.constructor` | user-service/src/main/java/com/service/user/service/ServiceRole.java:26-40 | an empty role store |
| `RoleServices.RoleService.CreateRole` | user-service/src/main/java/com/service/user/service/ServiceRole.java:26-40 | a duplicate name fails and changes nothing; a null name, which no stored role matches, is refused by the non-null name column and changes nothing; otherwise the store gains exactly one role, with the requested name, description, permissions and default flag, not system and without users, and names stay unique |
| `RoleServices.RoleService.UpdateRole` | user-service/src/main/java/com/service/user/service/ServiceRole.java:88-119 | a missing id fails; renaming to another existing name fails and changes nothing; otherwise null fields leave the role unchanged, system flag and users are kept, and names stay unique |
| `RoleServices.RoleService.DeleteRole` | user-service/src/main/java/com/service/user/service/ServiceRole.java:122-140 | a missing id, a null system flag, a system role and a role with users each fail and change nothing; otherwise exactly that role is removed |
| `RoleServices.RoleService.HasPermission` | user-service/src/main/java/com/service/user/service/ServiceRole.java:219-225 | a missing id fails; otherwise the answer is substring containment in a non-empty permission string |
| `RoleServices.RoleService.GetRolePermissions` | user-service/src/main/java/com/service/user/service/ServiceRole.java:227-239 | a missing id fails; null or empty permissions give an empty list; every element is a non-empty trimmed token |
| `RoleServices.RoleService.AddPermission` | user-service/src/main/java/com/service/user/service/ServiceRole.java:193-204 | a missing id fails; otherwise that role's permissions become `WithPermission` and no other role's permissions change |
| `RoleServices.RoleService.RemovePermission` | user-service/src/main/java/com/service/user/service/ServiceRole.java:206-217 | a missing id fails; otherwise that role's permissions change as `Role.removePermission` says and no other role's do |
| `RoleServices.RoleService.SetAsDefault` | user-service/src/main/java/com/service/user/service/ServiceRole.java:242-258 | a missing id fails and changes no flag; otherwise that role is default, every other default flag is cleared, and it is the only default role |
| `RoleServices.RoleService.RemoveAsDefault` | user-service/src/main/java/com/service/user/service/ServiceRole.java:261-271 | a missing id fails; otherwise only that role's default flag changes, to false |
| `RoleServices.RoleService.GetOrCreateDefaultUserRole` | user-service/src/main/java/com/service/user/service/ServiceRole.java:284-297 | an existing USER role is returned and the store is unchanged; otherwise one USER role is created, default, not system, with its description and permissions |
| `RoleServices.RoleService.InitializeDefaultRoles` | user-service/src/main/java/com/service/user/service/ServiceRole.java:300-325 | afterwards all five default names exist; existing roles are untouched; every added role is a seed; when all names existed nothing is added, so a second run is a no-op |
| `RoleServices.RoleService.InsertSeed` | user-service/src/main/java/com/service/user/service/ServiceRole.java:313-321 | inserting a missing seed adds exactly one role under the next id, keeps the other roles, and keeps names unique |
| `RoleServices.SeededSystemRoleIsAdmin` | user-service/src/main/java/com/service/user/service/ServiceRole.java:304-310 | a role created from the seeds is a system role exactly when it is ADMIN |
| `UserDetails.PermissionAuthorities` | user-service/src/main/java/com/service/user/config/CustomUserDetailsService.java:58-63 | one `PERMISSION_` authority per piece, in order, untrimmed |
| `UserDetails.Authorities` | user-service/src/main/java/com/service/user/config/CustomUserDetailsService.java:45-64 | no role gives no authority; null or empty permissions give exactly `ROLE_<name>`; otherwise one `PERMISSION_<piece>` per comma-split piece, in order |
| `UserDetails.AuthoritiesOfTokens` | user-service/src/main/java/com/service/user/config/CustomUserDetailsService.java:58-63 | for permissions that are tokens joined by commas, the authorities are exactly the `PERMISSION_` forms of the role service's permission list |
| `UserDetails.AuthoritiesKeepSpaces` | user-service/src/main/java/com/service/user/config/CustomUserDetailsService.java:58-63 | pieces are not trimmed: `a, b` grants `PERMISSION_a` and `PERMISSION_ b` |
| `UserDetails.SeparatorPieces` | user-service/src/main/java/com/service/user/config/CustomUserDetailsService.java:58-60 | a string of commas splits into empty pieces only |
| `UserDetails.SeparatorsGrantNothing` | user-service/src/main/java/com/service/user/config/CustomUserDetailsService.java:58-63 | a permissions string of commas only grants no authority at all, not even the role authority |
| `UserDetails.LoadUserByUsername` | user-service/src/main/java/com/service/user/config/CustomUserDetailsService.java:26-43 | an unknown e-mail fails with not-found; a null active flag fails; on success the username is the e-mail, `enabled` is the active flag, `accountNonLocked` its negation, both expiry flags true, and the authorities those of the role |
| `UserDetails.NoLoadedAccountCanSignIn` | user-service/src/main/java/com/service/user/config/CustomUserDetailsService.java:37-40 | as written, no loaded account passes all four flags: an active account comes out locked |
| `UserDetails.LoadUserByUsernameIntended` | user-service/src/main/java/com/service/user/config/CustomUserDetailsService.java:26-43 | the same outcome as `loadUserByUsername` except that `accountNonLocked` equals `enabled` |
| `UserDetails.IntendedSignInFollowsActive` | user-service/src/main/java/com/service/user/config/CustomUserDetailsService.java:37-40 | with the intended flag an account can sign in exactly when its row is active |
| `Schools.School.constructor` | school-service/src/main/java/com/service/school/entity/School.java:66-166 | a new school is an active UNIVERSITY with zero counts, active, not featured, not verified, without slug, accreditation or timestamps |
| `Schools.School.IncrementStudentCount` | school-service/src/main/java/com/service/school/entity/School.java:236-241 | a null count becomes 1, otherwise it goes up by one (with `int` wrap-around) |
| `Schools.School.DecrementStudentCount` | school-service/src/main/java/com/service/school/entity/School.java:243-249 | the count never goes negative and drops by one when positive |
| `Schools.School.IncrementTeacherCount` | school-service/src/main/java/com/service/school/entity/School.java:251-256 | a null count becomes 1, otherwise it goes up by one (with `int` wrap-around) |
| `Schools.School.DecrementTeacherCount` | school-service/src/main/java/com/service/school/entity/School.java:258-264 | the count never goes negative and drops by one when positive |
| `Schools.School.Verify` | school-service/src/main/java/com/service/school/entity/School.java:266-269 | `verified` becomes true and the verification date now |
| `Schools.School.Suspend` | school-service/src/main/java/com/service/school/entity/School.java:271-274 | status SUSPENDED and `isActive` false, so the school is not operational and admits no students at any instant |
| `Schools.School.Activate` | school-service/src/main/java/com/service/school/entity/School.java:276-279 | status ACTIVE and `isActive` true, so the school is operational and admits students exactly when it is accredited |
| `Schools.School.Deactivate` | school-service/src/main/java/com/service/school/entity/School.java:281-284 | status INACTIVE and `isActive` false, so the school is not operational and admits no students at any instant |
| `Schools.School.OnCreate` | school-service/src/main/java/com/service/school/entity/School.java:185-213 | null timestamps, status, type, `isActive`, `isFeatured` and `verified` get now, now, ACTIVE, UNIVERSITY, true, false and false and set values are kept; a blank slug is generated from the name |
| `Schools.School.FillDefaults` | school-service/src/main/java/com/service/school/entity/School.java:187-207 | the null-only defaults of `onCreate` |
| `Schools.School.FillTimesAndStatus` | school-service/src/main/java/com/service/school/entity/School.java:187-195 | the timestamps and status defaults |
| `Schools.School.FillFlags` | school-service/src/main/java/com/service/school/entity/School.java:199-207 | the three flag defaults |
| `Schools.School.FillType` | school-service/src/main/java/com/service/school/entity/School.java:196-198 | a null type becomes UNIVERSITY |
| `Schools.School.FillSlug` | school-service/src/main/java/com/service/school/entity/School.java:210-212 | a blank slug is generated from the name, a set one kept |
| `Schools.School.OnUpdate` | school-service/src/main/java/com/service/school/entity/School.java:215-218 | `updatedAt` becomes now |
| `Schools.School.IsOperational` | school-service/src/main/java/com/service/school/entity/School.java:221-223 | a school operates when its status is ACTIVE and its flag is true |
| `Schools.School.IsAccredited` | school-service/src/main/java/com/service/school/entity/School.java:225-230 | a school is accredited when labelled ACCREDITED with no expiry or an expiry after now |
| `Schools.School.CanAdmitStudents` | school-service/src/main/java/com/service/school/entity/School.java:232-234 | a school admits students when it is operational and accredited |
| `Schools.AdmissionWindowIsPrefix` | school-service/src/main/java/com/service/school/entity/School.java:225-234 | a school that admits students at some instant also admitted them at every earlier instant |
| `Schools.ExpiredAccreditationBlocksAdmission` | school-service/src/main/java/com/service/school/entity/School.java:225-234 | an expiry at or before now blocks accreditation and admission |
| `Schools.MissingLabelNotAccredited` | school-service/src/main/java/com/service/school/entity/School.java:225-230 | a school without an accreditation label is never accredited, whatever its expiry date |
| `Communities.Community.constructor` | community-service/src/main/java/com/service/community/entity/Community.java:42-45 | a new community has the given title, 0 members, is active and has nothing else set |
| `Communities.Community.SlugMissing` | community-service/src/main/java/com/service/community/entity/Community.java:62-71 | `onCreate` regenerates the slug exactly when it is null or empty |
| `Communities.Community.OnCreate` | community-service/src/main/java/com/service/community/entity/Community.java:62-71 | both timestamps become now; a null or empty slug is generated from the title, a supplied one kept |
| `Communities.Community.OnUpdate` | community-service/src/main/java/com/service/community/entity/Community.java:73-76 | `updatedAt` becomes now |
| `CommunityServices.SumCountsChange` | community-service/src/main/java/com/service/community/service/ServiceCommunity.java:199-203 | changing one community's count changes the total by exactly the difference |
| `CommunityServices.SumCountsNonNegative` | community-service/src/main/java/com/service/community/service/ServiceCommunity.java:199-203 | a total of non-negative counts is non-negative |
| `CommunityServices.IncrementRaisesTotal` | community-service/src/main/java/com/service/community/service/ServiceCommunity.java:137-142 | incrementing one community raises the exact total by one |
| `CommunityServices.RemovalLowersTotal` | community-service/src/main/java/com/service/community/service/ServiceCommunity.java:84-94 | deleting a community lowers the exact total by its count |
| `CommunityServices.TopCommunities` | community-service/src/main/java/com/service/community/service/ServiceCommunity.java:129-134 | a null limit fails and a negative one is refused; otherwise the result is the first `limit` communities of the ordered list, or all of them when fewer |
| `CommunityServices.TopCommunitiesKeepOrder` | community-service/src/main/java/com/service/community/service/ServiceCommunity.java:129-134 | the result keeps the non-increasing member-count order |
| `CommunityServices.CopyEditableFields` | community-service/src/main/java/com/service/community/service/ServiceCommunity.java:64-80 | every editable field is copied from the input, the member count only when the input has one, and `createdAt` is kept |
| `CommunityServices.PrepareNew` | community-service/src/main/java/com/service/community/service/ServiceCommunity.java:30-43 | a null member count becomes 0 and a null flag true; `onCreate` stamps the timestamps and fills a missing slug |
| `CommunityServices.CommunityService.Counts` | community-service/src/main/java/com/service/community/service/ServiceCommunity.java:199-203 | the member count of every stored community, by id |
| `CommunityServices.CommunityService.constructor` | community-service/src/main/java/com/service/community/service/ServiceCommunity.java:20-44 | an empty community store |
| `CommunityServices.CommunityService.CreateConflict` | community-service/src/main/java/com/service/community/service/ServiceCommunity.java:20-28 | a taken title is reported first, then a taken non-null slug, then a null title, then a slug that `onCreate` would generate and another community already holds; no conflict means a fresh, non-null title and a slug, given or generated, that no stored community holds |
| `CommunityServices.CommunityService.CreateCommunity` | community-service/src/main/java/com/service/community/service/ServiceCommunity.java:20-44 | a conflict fails and changes nothing; otherwise the community is stored under the next id with its defaults and slug filled, every field the caller supplied is kept, and titles and non-null slugs stay unique |
| `CommunityServices.CommunityService.UpdateConflict` | community-service/src/main/java/com/service/community/service/ServiceCommunity.java:47-62 | a changed title that another community holds is reported first, then a changed non-null slug that another community holds; no conflict means neither, and a non-null title |
| `CommunityServices.CommunityService.UpdateCommunity` | community-service/src/main/java/com/service/community/service/ServiceCommunity.java:47-81 | a missing id fails; a title or slug conflict fails and changes nothing; otherwise the editable fields are copied and the member count only when given |
| `CommunityServices.CommunityService.DeleteCommunity` | community-service/src/main/java/com/service/community/service/ServiceCommunity.java:84-94 | a missing id or a null count fails; a positive count fails; otherwise exactly that community is removed |
| `CommunityServices.CommunityService.StoreCount` | community-service/src/main/java/com/service/community/service/ServiceCommunity.java:155-160 | the count is stored and no other community's count changes |
| `CommunityServices.CommunityService.IncrementMemberCount` | community-service/src/main/java/com/service/community/service/ServiceCommunity.java:137-142 | a missing id or a null count fails; otherwise the count goes up by exactly one (with `int` wrap-around), `updatedAt` becomes now, and no other field and no other community changes |
| `CommunityServices.CommunityService.DecrementMemberCount` | community-service/src/main/java/com/service/community/service/ServiceCommunity.java:145-152 | a missing id or a null count fails; otherwise the count drops by one and never below 0, `updatedAt` becomes now, and no other field and no other community changes |
| `CommunityServices.CommunityService.UpdateMemberCount` | community-service/src/main/java/com/service/community/service/ServiceCommunity.java:155-160 | a missing id fails; otherwise the given count is stored, `updatedAt` becomes now, and no other field and no other community changes |
| `CommunityServices.CommunityService.SetActive` | community-service/src/main/java/com/service/community/service/ServiceCommunity.java:163-176 | a missing id fails; otherwise the flag is set, `updatedAt` becomes now, and no other field and no other community changes |
| `CommunityServices.CommunityService.TotalMembers` | community-service/src/main/java/com/service/community/service/ServiceCommunity.java:199-203 | a null count anywhere fails; otherwise the result is the sum of all counts, wrapped to `int` |
| `Students.LevelFor` | student-service/src/main/java/com/service/student/entity/Student.java:301-308 | FRESHMAN for null or fewer than 30 credits, SOPHOMORE from 30, JUNIOR from 60, SENIOR from 90 |
| `Students.LevelMonotone` | student-service/src/main/java/com/service/student/entity/Student.java:301-308 | more credits never give a lower level |
| `Students.FullNameOf` | student-service/src/main/java/com/service/student/entity/Student.java:320-325 | null for two null names, the other name when one is null, otherwise first, a space and last |
| `Students.StudentCodeTail` | student-service/src/main/java/com/service/student/entity/Student.java:310-318 | a generated code is not blank and ends in a dash followed by the five-digit random draw |
| `Students.FiveDigitDraw` | student-service/src/main/java/com/service/student/entity/Student.java:315 | the padded draw is five digits whose value is the draw |
| `Students.DashBeforeTail` | student-service/src/main/java/com/service/student/entity/Student.java:317 | the dash before the draw sits right before its last five characters |
| `Students.StudentCodeVisible` | student-service/src/main/java/com/service/student/entity/Student.java:310-318 | a generated code is not blank |
| `Students.CodeAfterCreateIsSet` | student-service/src/main/java/com/service/student/entity/Student.java:231-234 | after `onCreate` the code is never blank, and a non-blank code is kept |
| `Students.StudentCode` | student-service/src/main/java/com/service/student/entity/Student.java:310-318 | the code `year-school-draw`, school padded to three digits and draw to five; `StudentCodeRoundTrip` recovers all three parts |
| `Students.CodeAfterCreate` | student-service/src/main/java/com/service/student/entity/Student.java:231-234 | a blank code is replaced by a generated one, a set one kept |
| `Students.StudentCodeRoundTrip` | student-service/src/main/java/com/service/student/entity/Student.java:310-318 | splitting a code of non-negative year and school id at dashes gives back the year, the school id and the draw |
| `Students.DigitsHaveNoDash` | student-service/src/main/java/com/service/student/entity/Student.java:310-318 | digits contain no dash |
| `Students.FillNullsCompletes` | student-service/src/main/java/com/service/student/entity/Student.java:206-229 | after the defaults every defaulted column is set, and filling again changes nothing |
| `Students.FillNullsKeepsSet` | student-service/src/main/java/com/service/student/entity/Student.java:206-229 | a column that was already set keeps its value |
| `Students.Student.constructor` | student-service/src/main/java/com/service/student/entity/Student.java:107-182 | a new student is ACTIVE, active, not graduated, not international, with 0 credits and nothing else set |
| `Students.Student.Persisted` | student-service/src/main/java/com/service/student/service/ServiceStudent.java:44-59 | the entity a create saves: the request's fields, both sync statuses PENDING, and the `onCreate` defaults, code and full name |
| `Students.Student.Graduate` | student-service/src/main/java/com/service/student/entity/Student.java:272-276 | GRADUATED, graduated, dated today; afterwards the student is not eligible for graduation in any year and cannot enrol |
| `Students.Student.Suspend` | student-service/src/main/java/com/service/student/entity/Student.java:278-281 | SUSPENDED and inactive, so the student cannot enrol |
| `Students.Student.Activate` | student-service/src/main/java/com/service/student/entity/Student.java:283-286 | ACTIVE and active, so the student can enrol exactly when not graduated |
| `Students.Student.Deactivate` | student-service/src/main/java/com/service/student/entity/Student.java:288-291 | INACTIVE and inactive, so the student cannot enrol |
| `Students.Student.AddCredits` | student-service/src/main/java/com/service/student/entity/Student.java:293-299 | null completed credits count as 0 and go up by exactly the amount, with `int` wrap-around |
| `Students.Student.OnCreate` | student-service/src/main/java/com/service/student/entity/Student.java:204-240 | the defaulted columns become `FillNulls` of the old ones; the code is generated only when blank and the full name only when blank |
| `Students.Student.FillGenerated` | student-service/src/main/java/com/service/student/entity/Student.java:231-239 | the code and full-name parts of `onCreate` |
| `Students.Student.FillDefaults` | student-service/src/main/java/com/service/student/entity/Student.java:206-229 | the null-only defaults of `onCreate` |
| `Students.Student.FillTimesAndStatus` | student-service/src/main/java/com/service/student/entity/Student.java:206-214 | the timestamps and enrolment status defaults |
| `Students.Student.FillFlagsAndCredits` | student-service/src/main/java/com/service/student/entity/Student.java:215-229 | the flag and credit defaults |
| `Students.Student.FillCode` | student-service/src/main/java/com/service/student/entity/Student.java:232-234 | a blank code is generated from the enrolment year (or the current year) and the school |
| `Students.Student.FillName` | student-service/src/main/java/com/service/student/entity/Student.java:237-239 | a blank full name is composed from the names |
| `Students.Student.OnUpdate` | student-service/src/main/java/com/service/student/entity/Student.java:242-255 | `updatedAt` becomes now; the full name is recomposed when a name is set; a graduated student without a date gets today, and a graduated student always has a date afterwards |
| `Students.Student.IsEligibleForGraduation` | student-service/src/main/java/com/service/student/entity/Student.java:258-264 | an active, not graduated student is eligible once the expected year is reached and the credits are complete |
| `Students.Student.CanEnrollInCourse` | student-service/src/main/java/com/service/student/entity/Student.java:266-270 | an ACTIVE, not graduated student whose flag is true can enrol |
| `Students.Student.CurrentAcademicLevel` | student-service/src/main/java/com/service/student/entity/Student.java:301-308 | the level from completed credits: SENIOR from 90, JUNIOR from 60, SOPHOMORE from 30, else (and when null) FRESHMAN |
| `Students.EligibilityNeedsYear` | student-service/src/main/java/com/service/student/entity/Student.java:258-264 | an eligible student has an expected year at or before the current year and enough completed credits |
| `Students.EligibilityPersists` | student-service/src/main/java/com/service/student/entity/Student.java:258-264 | a student eligible in one year is eligible in every later year |
| `Students.EligibleActiveCanEnrol` | student-service/src/main/java/com/service/student/entity/Student.java:258-270 | an eligible student whose flag is active can enrol |
| `StudentServices.StudentIsActive` | student-service/src/main/java/com/service/student/service/ServiceStudent.java:387-390 | a student counts as active when the status is ACTIVE and the flag is true |
| `StudentServices.Patched` | student-service/src/main/java/com/service/student/service/ServiceStudent.java:188-233 | a supplied value replaces the field, a null one leaves it |
| `StudentServices.PatchedProfile` | student-service/src/main/java/com/service/student/service/ServiceStudent.java:190-211 | every supplied detail replaces the stored one, every other detail is kept, and the e-mail is never touched |
| `StudentServices.PatchedProfileIdempotent` | student-service/src/main/java/com/service/student/service/ServiceStudent.java:190-211 | applying the same update twice is the same as once |
| `StudentServices.EmptyUpdateKeepsProfile` | student-service/src/main/java/com/service/student/service/ServiceStudent.java:190-211 | an update with nothing supplied leaves the profile unchanged |
| `StudentServices.YearsUntilGraduation` | student-service/src/main/java/com/service/student/service/ServiceStudent.java:428-437 | null when the expected year is null, never negative, and otherwise `max(0, expected - current)` when that difference fits in an `int` |
| `StudentServices.NoYearsLeftMeansYearReached` | student-service/src/main/java/com/service/student/service/ServiceStudent.java:433-437 | zero years are left exactly when the current year has reached the expected one |
| `StudentServices.OverflowMisreportsYears` | student-service/src/main/java/com/service/student/service/ServiceStudent.java:433-437 | whenever `expected - current` overflows an `int`, the answer differs from the true number of years left, and a future year that overflows reports 0 years |
| `StudentServices.NewProfile` | student-service/src/main/java/com/service/student/service/ServiceStudent.java:44-59 | a fresh student built from the request, stored with both sync statuses PENDING |
| `StudentServices.ApplyUpdate` | student-service/src/main/java/com/service/student/service/ServiceStudent.java:183-244 | every field whose update value is null is unchanged and every supplied one replaced |
| `StudentServices.UpdateNames` | student-service/src/main/java/com/service/student/service/ServiceStudent.java:188-241 | names are patched and, when either is supplied, the full name becomes new-or-old first, a space, new-or-old last |
| `StudentServices.UpdateProfileAndFlags` | student-service/src/main/java/com/service/student/service/ServiceStudent.java:190-234 | the profile is patched, the advisor sync status resets to PENDING exactly when an advisor is supplied, and the flags are patched |
| `StudentServices.StudentService.constructor` | student-service/src/main/java/com/service/student/service/ServiceStudent.java:44-59 | an empty student store |
| `StudentServices.StudentService.CreateConflict` | student-service/src/main/java/com/service/student/service/ServiceStudent.java:45-52 | a user with a profile is reported first, then a taken non-null code, then a missing name part, then an id-card or passport number another student already holds |
| `StudentServices.StudentService.CreateStudent` | student-service/src/main/java/com/service/student/service/ServiceStudent.java:44-59 | a conflict fails and changes nothing; otherwise one student is stored under the next id, built from the request, and user ids and id-card and passport numbers stay unique |
| `StudentServices.StudentService.UpdateStudent` | student-service/src/main/java/com/service/student/service/ServiceStudent.java:183-244 | a missing id fails; an update that would give the student an id-card or passport number another student holds fails and changes nothing; otherwise the partial update is applied |
| `StudentServices.StudentService.DeleteStudent` | student-service/src/main/java/com/service/student/service/ServiceStudent.java:247-254 | a missing id fails; otherwise the student stays stored, INACTIVE and inactive, and no other field and no other student changes |
| `StudentServices.StudentService.ChangeEnrollmentStatus` | student-service/src/main/java/com/service/student/service/ServiceStudent.java:261-269 | a missing id fails; otherwise the status is set and `isActive` is true exactly for ACTIVE, and no other field and no other student changes |
| `StudentServices.StudentService.GraduateStudent` | student-service/src/main/java/com/service/student/service/ServiceStudent.java:293-302 | the call succeeds exactly when the id is stored and the student is eligible; a refused student is unchanged; on success the student is graduated today and no longer active, and no other field and no other student changes |
| `StudentServices.StudentService.UpdateProgram` | student-service/src/main/java/com/service/student/service/ServiceStudent.java:326-331 | a missing id fails; otherwise the supplied program and major replace the stored ones, the rest of the profile is kept, and no other field and no other student changes |
| `StudentServices.StudentService.IsStudentActive` | student-service/src/main/java/com/service/student/service/ServiceStudent.java:387-390 | a missing id fails; otherwise the answer is ACTIVE status with a true flag |

## Left out

- Concurrency and transactions: the model is sequential, so it states no invariant about concurrent registrations.
- Floating point: GPA, `creditsPercentage`, average GPA, payments and coordinates.
- Feign clients, the `enrich...` methods and the user/advisor synchronisation calls: these are network calls.
- The bulk student methods and the remaining read-only queries.
- Event-level register, approve and waitlist promotion, and any check of the check-in code: the event services only save and list, and the interface declares these without bodies.
- REST controllers, DTO mappers, enum display names and repository query methods.
- Unicode: `toLowerCase`, `trim`, `isBlank` and the regex class `\s` are modelled over ASCII.
- The clock and `Math.random` are inputs. A generated student or check-in code that collides with an existing one is not modelled.
- `@PreUpdate` runs when the persistence context flushes. The hooks are modelled as entity methods but are not sequenced into the service updates.
- `UserDetails.LoadUserByUsername`: the user repository is a map keyed by e-mail, which assumes unique e-mails. The framework's sorted authority set is modelled as a set.
- Source that does not compile as written is modelled as evidently intended:
  - `CreateRoleDTO` lacks the fields `getOrCreateDefaultUserRole` sets;
  - `User` has no role or `getIsActive` (modelled as a nullable role and active flag);
  - `getAuthorities` calls `stream()` on an array;
  - `Student` has no sync-status fields, although `ServiceStudent` sets them.
- The profile columns of `Student` are grouped into one `Profile` value. The personal and contact columns that `updateStudent` patches are one map of details. Email is one of those details, and `updateStudent` never copies it.
- `Students.Student.Persisted` combines the ModelMapper copy, the two sync statuses and `onCreate` into one constructor.
- A null community title: `existsByTitle(null)` is modelled as false. A create or update with a null title then fails as `MissingTitle`. This stands for the `nullable = false` title column refusing the row, or, on create without a slug, for the null dereference in `generateSlug`.
- `CommunityServices.TopCommunities`: the repository orders by member count descending, and where a null count sorts is up to the database. `RankKey` assumes a null count sorts first, the default for a descending order in PostgreSQL and Oracle. On a database that puts nulls last, such as MySQL or H2, the stated order is wrong for those rows.
- `StudentServices.StudentService.CreateConflict`: a null first or last name fails as `MissingName`. This stands for the `nullable = false` name columns (Student.java, lines 33-37) refusing the insert.
- `StudentServices.StudentService.CreateConflict`, `StudentServices.StudentService.UpdateStudent`: an id-card or passport number that another student holds fails as `IdentityTaken`. This stands for the `unique` columns (Student.java, lines 54-58) refusing the row; the service itself does not check them, and the class-level transaction rolls the update back.
- `CommunityServices.CommunityService.CreateConflict`: a slug that `onCreate` generates and another community already holds fails as `GeneratedSlugTaken`. This stands for the `unique` slug column (Community.java, lines 27-28) refusing the insert; the service checks only a supplied slug.
- `RoleServices.RoleService.CreateRole`: a null name fails as `MissingName`. `existsByName(null)` matches no role, and this stands for the `nullable = false` name column (Role.java, line 27) refusing the row.
- Column length limits (`length = 50`, `length = 100` and the like) are not modelled: an over-long value is stored where the database would refuse it.
- `Students.Student.AddCredits`: a null `Integer` amount throws in Java on unboxing (Student.java, line 295); the model takes a non-null `Int32` amount and leaves that case out.
- `Roles.Role.AddPermission`: the permission is a non-null string. With a null one Java sets the list to null when it was empty and otherwise throws in `contains`.
- `Roles.Role.RemovePermission`: the permission is a non-null string; a null one throws in `contains` when the list is set.
- `RoleServices.RoleService.AddPermission`: the permission is a non-null string, for the reason given for `Roles.Role.AddPermission`.
- `RoleServices.RoleService.RemovePermission`: the permission is a non-null string, for the reason given for `Roles.Role.RemovePermission`.
- `Students.Student.OnUpdate`: requires `isGraduated` to be set. A null flag throws in Java on unboxing (Student.java, line 252), and `onCreate` always sets it first.
- `RoleServices.RoleService.SetAsDefault`: a null default flag on another role stays null, since only `true` flags are cleared.
- `Roles.PermissionsWithout`: only the length bound is stated for every input. The exact result is stated by `Roles.RemovalLeaves` and the concrete lemmas.

## Findings

| source | as written | input that shows it | evidently intended | confidence | as-written member | corrected member |
|---|---|---|---|---|---|---|
| user-service/src/main/java/com/service/user/config/CustomUserDetailsService.java:37-40 | `accountNonLocked` is `!isActive`, so an active user is locked and an inactive one disabled | any stored user with `isActive == true` and a password | `accountNonLocked` equal to `isActive`, as the comment "if inactive = locked" says | high, not executed | `UserDetails.LoadUserByUsername` with `UserDetails.NoLoadedAccountCanSignIn` | `UserDetails.LoadUserByUsernameIntended` with `UserDetails.IntendedSignInFollowsActive` |
