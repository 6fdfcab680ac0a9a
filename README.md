# Dormitory backend: occupancy and debt-status reconciliation

This project is a Dafny model of the core of a Django backend for student dormitories.
The model covers:

- **Room occupancy.** Every room keeps a counter of its students (`currentOccupancy`) and a status: AVAILABLE, PARTIALLY_OCCUPIED or FULLY_OCCUPIED. Signal handlers recount a room whenever a student is saved, moved or deleted. The student serializer and the student delete view repeat the recount inline.
- **Debt status.** Saving a payment re-derives the student's debt status ('Qarzdor', 'Haqdor' or 'Tekshirilmaydi') from the approved payment with the latest `valid_until`. An older rule, `Student.check_and_update_debt`, is modelled next to it.
- **Validators and scoping.** Floor and room names are unique within their scope. The dormitory validator would keep an admin at one dormitory; the views also handle an admin with several. The capacity guard on student assignment, the permission classes, the role-scoped querysets of the views, the delete rules for users and dormitories are all modelled. So is `StudentFilter`, which no view uses in this revision; it is modelled as it would filter.

The modules follow the source files:

| module | file | content |
|---|---|---|
| `Wrappers` | wrappers.dfy | `Option`, `Result`, `Outcome` |
| `Models` | models.dfy | record shapes and defaults, queryset abstractions (`Occupants`, `Filter`, `LatestByValidUntil`, `AdminDormitory`), the older debt rule |
| `Signals` | signals.dfy | the threshold, the status rule, the name checks, the notification recipients, the database as a value (`Db`) with one effect function per signal-firing save or delete, and the class `Database` whose methods are the handlers |
| `Serializers` | serializers.dfy | the validators and the `create` methods |
| `Permissions` | permissions.dfy | the permission classes |
| `Views` | views.dfy | querysets, deletes, the create views |
| `Filters` | filters.dfy | `StudentFilter` |

How the state is split:

- **The class `Signals.Database`** holds the tables that the handlers change in place: rooms, students, payments, floors and dormitories.
  - Each method states its new state as a function of the old one, for example `State() == SaveEffect(old(State()), id, st)`.
  - Each method keeps `Valid()`. `Valid()` says that:
    - every student's room and every payment's student are stored rows (the other references, such as a floor's dormitory or a room's floor, are not constrained);
    - every room's counter and status agree with its live student set;
    - names are unique in their scope.
- **The lemmas** are stated about the effect functions.
- **Pure checks** (validators, permissions, querysets, filters) are functions and predicates.

How values are represented:

- **Dates** are day numbers.
- **Keys** of floors, rooms and students are positive, as auto-increment keys are, so the handlers' `if instance.pk:` holds exactly for a key that is given.
- **Payments** are a sequence in primary-key order. `order_by('-valid_until').first()` follows SQLite, which the settings select: NULL sorts after every date under a descending order.
- **Student status** is a string because the older rule writes labels outside the field's choices.
- **Clock, ORM and request context.** `timezone.now().date()` becomes a `today` parameter. The ORM's lookups become map and set operations. The requesting user is a parameter.

Where the code and the documented intent disagree, the model follows the code:

- A room with capacity 0 or less is accepted. When it is empty it is AVAILABLE, yet the guard refuses every student.
- Neither name check covers a change of scope (the dormitory of a floor, the floor of a room).
- `UserSerializer.validate` reads a `dormitory` attribute that the serializer never declares.

## Model

| member | source | states |
|---|---|---|
| Models.NewRoom | main/models.py:116-123 | a new room has no occupants and status AVAILABLE, with the given name, floor, capacity and gender |
| Models.NewStudent | main/models.py:133-167 | a new student has status 'Qarzdor', one of the field's choices, and the given dormitory, floor, room and placement |
| Models.ValidateRating | main/models.py:83 | a rating is accepted iff it is empty or between 1 and 5; otherwise the error is RatingOutOfRange |
| Models.LatestByValidUntil | main/signals.py:56 | the first row of `order_by('-valid_until')` on SQLite: none iff there are no rows; otherwise one of the rows whose date is the greatest of the dated rows; undated only when no row has a date |
| Models.AdminDormitory | main/serializers.py:148-151 | `Dormitory.objects.get(admin=u)` succeeds iff u administers exactly one dormitory and returns it; otherwise NoDormitory or MultipleDormitories |
| Models.Occupants | main/signals.py:176 | `room.students` is drawn from the stored students; the exact members are given only by the definition, and the lemmas OccupantsAfterWrite and OccupantsAfterRemove state how they change on a write and a delete |
| Models.PaymentsOf | main/models.py:219 | `student.payments`: exactly the payments of the given student |
| Models.ApprovedOnly | main/signals.py:56 | `filter(status='APPROVED')`: exactly the approved payments |
| Models.LegacyDebtLabel | main/models.py:169-178 | the older rule over all payments of any status: an error when payments exist but none has a date (comparing None with a date); 'haqdor' iff some payment is dated today or later; otherwise 'qarzdor' |
| Models.CheckAndUpdateDebt | main/models.py:169-178 | the record gets the label derived by the older rule; it is saved iff the stored status differs from it; the comparison error is passed on |
| Models.LegacyLabelsOutsideChoices | main/models.py:171-178 | neither label the older rule writes is among the status field's choices |
| Signals.RoomStatusFor | main/signals.py:179-184 | AVAILABLE iff the count is 0; PARTIALLY_OCCUPIED iff 0 < count < capacity; FULLY_OCCUPIED iff count > 0 and count >= capacity |
| Signals.Recount | main/signals.py:172-186 | the recounted room agrees with the count and keeps every field other than the counter and the status |
| Signals.RecountIdempotent | main/signals.py:172-186 | recounting twice changes nothing more; a room is left unchanged iff it already agrees with the count |
| Signals.DeriveStatus | main/signals.py:51-61 | the derived status is one of the three labels; a student whose placement is 'Qabul qilindi' gets 'Tekshirilmaydi' |
| Signals.DeriveStatusSpec | main/signals.py:51-61 | for a placed student, 'Haqdor' iff some APPROVED payment has a non-null valid_until on or after today, else 'Qarzdor' |
| Signals.CancelledPaymentIgnored | main/signals.py:56 | adding a cancelled payment never changes the derived status |
| Signals.LaterPaymentNeverDowngrades | main/signals.py:56-61 | once 'Haqdor', any further payment keeps the status 'Haqdor': the greatest valid_until decides, not the newest payment |
| Signals.LegacyCountsCancelledPayment | main/models.py:170 | one cancelled payment valid today gives 'haqdor' under the older rule and 'Qarzdor' under the signal's rule |
| Signals.FloorNameCheck | main/signals.py:126-142 | a new floor passes iff no floor of its dormitory has its name; a stored floor passes iff its name is unchanged or no other floor of its dormitory has it; a primary key with no stored row passes |
| Signals.FloorNameCheckMissesDormitoryChange | main/signals.py:131-137 | moving a floor to a dormitory that has a floor of the same name passes the check and breaks uniqueness |
| Signals.FloorNameCheckFixed | main/signals.py:126-142 | the corrected check admits a stored floor that keeps its name and dormitory, and admits nothing the original check refuses |
| Signals.FloorNameCheckFixedKeepsNamesUnique | main/signals.py:126-142 | writing a floor that the corrected check admits keeps floor names unique within each dormitory |
| Signals.RoomNameCheck | main/signals.py:145-161 | the same three cases as the floor check, with rooms scoped by floor |
| Signals.RoomNameCheckMissesFloorChange | main/signals.py:150-156 | moving a room to a floor that has a room of the same name passes the check and breaks uniqueness |
| Signals.RoomNameCheckFixed | main/signals.py:145-161 | the corrected check admits a stored room that keeps its name and floor, and admits nothing the original refuses |
| Signals.RoomNameCheckFixedKeepsNamesUnique | main/signals.py:145-161 | writing a room that the corrected check admits keeps room names unique within each floor |
| Signals.NotificationTargets | main/signals.py:93-102 | recipients: the users with role 'student' for all_students; role 'admin' for all_admins; the named user, if any, for specific_user; nobody otherwise; always stored users when the named user is stored |
| Signals.SaveEffect | main/signals.py:189-219 | a student save writes exactly that student's record, with its placement settled, leaves payments, floors and dormitories alone and creates or removes no room |
| Signals.DeleteEffect | main/signals.py:222-226 | a delete removes exactly that student and exactly its payments, touches only the room it was in, and leaves that room consistent with its live count |
| Signals.PaymentEffect | main/signals.py:41-66 | the payment is appended or written at its position; only its student can change, and that student's status is the one derived from its payments |
| Signals.BroadcastAudiencesPartitionUsers | main/signals.py:93-102 | all_students and all_admins reach disjoint sets of users, which together are every user when each has one of the two role choices; specific_user reaches at most one user |
| Signals.OccupantsAfterWrite | main/signals.py:176 | writing a student adds it to the live set of the room it names and removes it from every other room's set |
| Signals.OccupantsAfterRemove | main/signals.py:176 | deleting a student removes it from every room's live set |
| Signals.RecountKeepsRoomNames | main/signals.py:186 | a recount writes only the counter and the status, so room names stay unique |
| Signals.RefreshPair | main/signals.py:212-219 | recounting the old room and then the new one equals recounting both at once, whether or not they are the same room |
| Signals.PlacedOnSave | main/signals.py:205-210 | a saved student with a floor and a room is 'Joylashdi'; nothing else in the record changes |
| Signals.WithoutPaymentsOf | main/models.py:219 | the cascade keeps exactly the payments of the other students |
| Signals.SaveKeepsReconciled | main/signals.py:189-219 | a student save whose room exists keeps every student's room and every payment's student stored, every room's counter and status equal to its live count and threshold, and names unique |
| Signals.SaveMovesOneStudent | main/signals.py:200-219 | a save raises the target room's counter by one, or by zero if the student was already there; lowers the old room's counter by one; leaves every other room as it was |
| Signals.DeleteKeepsReconciled | main/signals.py:222-226 | deleting a student, with its payments, keeps the database reconciled |
| Signals.DeleteFreesOnePlace | main/signals.py:222-226 | a delete lowers the counter of the student's room by one and leaves every other room as it was |
| Signals.PaymentKeepsReconciled | main/signals.py:41-66 | saving a payment keeps the database reconciled and leaves the student's stored status equal to the status derived from its payments and from the placement stored before the save |
| Signals.Database.UpdateRoomStatus | main/signals.py:172-186 | only the given room is recounted against the live students; a missing room is skipped |
| Signals.Database.TrackOldRoom | main/signals.py:189-197 | returns the room of the stored record, or none for a new student |
| Signals.Database.UpdateRoomOnSave | main/signals.py:200-219 | the student's placement is settled; the room left (when different) and the room entered are recounted; nothing else changes |
| Signals.Database.SaveStudent | main/signals.py:189-219 | the new state is the save effect, and the database stays reconciled |
| Signals.Database.UpdateRoomOnDelete | main/signals.py:222-226 | the deleted student's room is recounted |
| Signals.Database.DeleteStudent | main/signals.py:222-226 | the new state is the delete effect (student and its payments gone, its room recounted); the database stays reconciled |
| Signals.Database.UpdateStudentStatusAfterPayment | main/signals.py:41-66 | writes iff the derived status differs from the stored one, and then does so through a full student save; stays reconciled |
| Signals.Database.SavePayment | main/signals.py:41-66 | the new state is the payment written at its position or appended, followed by the status signal; stays reconciled |
| Signals.Database.InsertFloor | main/signals.py:140-142 | a new floor is stored iff no floor of its dormitory has its name, else DuplicateName; names stay unique |
| Signals.Database.InsertRoom | main/signals.py:159-161 | a new room with the defaults is stored iff no room of its floor has its name, else DuplicateName; the database stays reconciled |
| Serializers.DormitoryAttr | main/serializers.py:14 | `attrs.get('dormitory')` is the supplied value only when the serializer declares the field, and none otherwise |
| Serializers.ValidateUser | main/serializers.py:11-20 | a requester without role 'admin', or a role outside teacher, student and manager, always passes (the role field itself admits only 'student' and 'admin'); an admin creating one of those roles passes iff the named dormitory is the admin's own; otherwise ForeignDormitory |
| Serializers.AdminCannotCreateStaffUser | main/serializers.py:8-19 | with the declared fields, an admin's request for a teacher, student or manager is always refused by validate; the role field already refuses 'teacher' and 'manager', so in practice this is every request for a student |
| Serializers.StaffUserNeedsOwnDormitory | main/serializers.py:11-20 | with the dormitory declared, such a request passes iff the dormitory is the admin's own |
| Serializers.ValidateDormitory | main/serializers.py:65-75 | passes iff no other dormitory than the one being updated has the chosen admin (an absent admin passes); otherwise DormitoryTaken |
| Serializers.ValidatedWriteKeepsOneDormitoryPerAdmin | main/serializers.py:65-75 | a dormitory written after the validator passed keeps every admin at one dormitory at most |
| Serializers.OneDormitoryPerAdminMakesLookupSucceed | main/serializers.py:148-151 | under that invariant the admin's dormitory lookup finds the admin's dormitory |
| Serializers.StudentRoomGuard | main/serializers.py:137-142 | a room passes iff its stored counter is below its capacity, else RoomFull |
| Serializers.GuardOnConsistentRoom | main/serializers.py:140 | on a reconciled room: admits iff the live count is below capacity; refuses every FULLY_OCCUPIED room and every empty room without places; admits every PARTIALLY_OCCUPIED room |
| Serializers.Enrolled | main/serializers.py:153 | the saved record has the admin's dormitory, the status 'Qarzdor', and the form's floor, room and other fields |
| Serializers.StudentCreation | main/serializers.py:144-169 | for a key not stored yet: succeeds iff floor and room are valid choices, the room has a free place by its counter, and the requester administers exactly one dormitory; the student then gets that dormitory; no room is created or removed |
| Serializers.CreateStudent | main/serializers.py:144-169 | the guard, the dormitory lookup, the save with its signals, then the inline recount, which changes nothing; state as StudentCreation says; unchanged on failure; stays reconciled |
| Serializers.CreationKeepsWithinCapacity | main/serializers.py:140-167 | starting reconciled and within capacity, a creation stays so; the new student is in its room, 'Qarzdor', placed |
| Serializers.CreateAll | main/serializers.py:144-169 | running creations one after another never creates or removes a room; a request naming a stored key is skipped |
| Serializers.CreateAllKeepsWithinCapacity | main/serializers.py:140-158 | any sequence of guarded creations from a reconciled database leaves no room above capacity |
| Serializers.StudentUpdate | main/serializers.py:137-142 | an update succeeds iff floor and room are valid choices and the target room's counter is below capacity; the student keeps its dormitory and its stored placement, which the serializer does not write, and the save marks it 'Joylashdi' |
| Serializers.GuardCountsTheStudentItself | main/serializers.py:137-142 | a student in a room with no free place cannot be saved again in that same room |
| Serializers.StudentUpdateFixed | main/serializers.py:137-142 | the corrected update checks the counter only on a move; it admits everything the original admits, with the same result |
| Serializers.UpdateFixedKeepsWithinCapacity | main/serializers.py:137-142 | the corrected update keeps the database reconciled and every room within capacity |
| Serializers.CreateFloor | main/serializers.py:83-94 | fails with the lookup error when the requester has no single dormitory; otherwise the floor is filed under that dormitory through the name check; only the floors change |
| Serializers.CreatePayment | main/serializers.py:214-225 | refuses a student outside the choices (InvalidPk) or a requester with no single dormitory with the lookup's error; every other request succeeds and saves the payment under the admin's dormitory with the status signal |
| Permissions.IsStudent | main/permissions.py:4-6 | only an authenticated user passes, and only when there are student records |
| Permissions.IsAdmin | main/permissions.py:8-10 | only an authenticated superuser passes |
| Permissions.IsDormitoryAdmin | main/permissions.py:12-17 | only an authenticated user passes, and only when dormitories exist |
| Permissions.IsOwnerOrIsAdmin | main/permissions.py:19-21 | only an authenticated user passes; an authenticated superuser or the dormitory's own admin always passes |
| Permissions.IsAdminOrDormitoryAdmin | main/permissions.py:24-26 | only an authenticated user passes; an authenticated superuser always passes |
| Permissions.DormitoryAdminCharacterized | main/permissions.py:12-17 | IsDormitoryAdmin holds iff the user is authenticated and is the admin of some dormitory; such a user passes IsOwnerOrIsAdmin on that dormitory |
| Permissions.OwnerIsAdminOrDormitoryAdmin | main/permissions.py:19-26 | whoever passes IsOwnerOrIsAdmin on a stored dormitory passes IsAdminOrDormitoryAdmin |
| Permissions.AnonymousFailsEveryCheck | main/permissions.py:4-26 | an unauthenticated user fails all five permission classes |
| Permissions.AdminRoleIsNotAdminPermission | main/permissions.py:8-10 | IsAdmin reads the superuser flag: a role-'admin' user who is not a superuser and has no dormitory fails IsAdminOrDormitoryAdmin |
| Views.ListScope | main/views.py:94-103 | role 'admin' sees everything; a non-admin without a dormitory sees nothing; otherwise the own dormitory, or the lookup error when there are several |
| Views.VisibleFloors | main/views.py:94-103 | the floor list is drawn from stored floors |
| Views.VisibleRooms | main/views.py:130-140 | the room list is drawn from stored rooms |
| Views.VisibleStudents | main/views.py:181-191 | the student list is drawn from stored students |
| Views.VisibleApplications | main/views.py:250-261 | the application list is drawn from stored applications |
| Views.VisiblePayments | main/views.py:292-304 | the payment list consists of positions in the payments table |
| Views.ScopeExtremes | main/views.py:94-103 | role 'admin' sees every floor, room, student, application and payment; a non-admin without a dormitory sees none |
| Views.DormitoryAdminSeesOwnRows | main/views.py:94-304 | a dormitory admin sees exactly their own dormitory's floors, students, applications and payments, and the rooms on its floors |
| Views.VisibleUsers | main/views.py:13-21 | role 'admin' lists every user; anyone else lists only their own record |
| Views.DestroyUser | main/views.py:30-46 | deletion succeeds iff the requester has role 'admin', passes the view's permission and the user exists; then exactly that user is removed; a non-admin is always refused |
| Views.DestroyDormitory | main/views.py:79-87 | deletion succeeds iff the dormitory exists, the requester passes IsOwnerOrIsAdmin on it and has role 'admin'; a missing dormitory gives NotFound |
| Views.SuperuserWithoutAdminRoleCannotDelete | main/views.py:43-46 | a superuser whose role is 'student' passes both permission classes yet can delete neither users nor dormitories |
| Views.DormitoryOr404 | main/views.py:208 | the admin's dormitory, NotFound when there is none, MultipleDormitories when there are several |
| Views.StudentCreateChoices | main/views.py:199-213 | the floor choices are exactly the floors of the admin's dormitory, and the room choices exactly the rooms on those floors |
| Views.StudentCreateView | main/views.py:194-213 | succeeds iff the requester is a dormitory admin whose dormitory lookup succeeds and the creation over that dormitory's floor and room choices succeeds; a created student's floor and room belong to that admin's dormitory; unchanged on failure; stays reconciled |
| Views.PaymentCreateView | main/views.py:307-323 | succeeds iff the requester is a dormitory admin with exactly one dormitory and the student belongs to it; the payment and the student then share a dormitory; unchanged on failure |
| Views.CreatedPaymentIsAppended | main/serializers.py:225 | a created payment is appended to the table, and its student keeps its dormitory through the status signal |
| Views.DestroyStudent | main/views.py:231-244 | succeeds iff the requester passes IsAdminOrDormitoryAdmin, the list scope is found and the student is in it; then the new state is the delete effect and the inline recount changes nothing; a non-admin reaches only students of their own dormitory |
| Filters.IContainsIgnoresCase | main/filters.py:6-7 | the name filters give the same answer whatever the case of the value |
| Filters.SubstringMatches | main/filters.py:6-7 | every substring of the stored text matches, in either case |
| Filters.TotalPaid | main/filters.py:30 | the sum is NULL iff the student has no payment, else the sum of the student's amounts |
| Filters.TotalCountsEveryStatus | main/filters.py:30 | every new payment adds its amount to the total, approved or cancelled |
| Filters.FilterMaxPayment | main/filters.py:28-31 | the result is a subset of the input, and every listed student has at least one payment |
| Filters.MaxPaymentDropsStudentsWithoutPayments | main/filters.py:28-31 | a student with no payment is not listed under a bound of 1000 |
| Filters.FilterMaxPaymentCoalesced | main/filters.py:28-31 | the corrected filter's result is a subset of the input |
| Filters.CoalescedFilterSpec | main/filters.py:28-31 | the corrected filter lists a student iff its total, zero for none, is below the value; it agrees with the original on every student with a payment |
| Filters.Matching | main/filters.py:6-18 | the students passing the field filters are stored students |
| Filters.FilterStudents | main/filters.py:5-31 | refuses a status outside the model's two choices; otherwise lists exactly the stored students passing every given filter, and on max_payment only those with at least one payment whose total is below it |
| Filters.FilterStudentsFixed | main/filters.py:5-31 | the corrected filter set: refuses the same requests; on max_payment lists the students whose total, zero for none, is below it; lists everything StudentFilter lists, and in addition only students without payments |
| Filters.PassesFields | main/filters.py:6-18 | an empty query passes every student; a given floor, status or placement must equal the student's |
| Filters.NotEvaluatedStatusIsRefused | main/filters.py:9-13 | filtering on the status 'Tekshirilmaydi' is refused as an invalid choice |

## Left out

- Serializers.ValidateDormitory: DormitorySafeSerializer and DormitorySerializer list `photo` in `fields` (main/serializers.py:54, main/serializers.py:63), but the Dormitory model class (main/models.py:72-85) has no such field. So building either serializer raises ImproperlyConfigured, and `validate_admin` never runs in this revision. The member models the validator as it would run with a matching field list.
- Signals: signals.py imports Notification, UserNotification and ApplicationNotification from the models module (main/signals.py:6), and admin.py registers them (main/admin.py:91-94), but models.py in this revision defines none of the three. So importing the handler module fails. The handlers are modelled as they would run with a matching models.py.
- Serializers.StudentUpdate: a partial update without a room makes the guard read `None.currentOccupancy` and fail, so the model always takes a room.
- Permissions.IsStudent: the Student model class has no `user` field in this revision, so `Student.objects.filter(user=...)` raises FieldError and the permission never answers. The model gives Student the `user` reference the code evidently intends.
- Serializers.StudentCreation, Serializers.CreateStudent and Views.StudentCreateView: this revision cannot create or save any student. The Student model class has neither `user` nor `placement_status`. So `super().create(validated_data)` fails on the `user` key with a TypeError, and `update_room_on_save` fails reading `instance.placement_status` with an AttributeError, on every student save that fires the signals. The model adds both fields as the code evidently intends and models the create and the signals as they would run.
- Student.floor and the pk related fields: the queryset of the `user` field (users with role 'student') is not modelled, and floor and room validity is reduced to membership in the given choices.
- Signals.NotificationTargets: the `UserNotification` rows, the message text and `ignore_conflicts` are not modelled; only the recipients are.
- Signals.Database.UpdateStudentStatusAfterPayment: the application notification sent for an approved payment (main/signals.py:68-88) is not modelled.
- `create_user_profile`, `create_application_notification` and `create_task_reminder`: these only create notification or profile rows, and the reminder depends on the wall clock.
- `UserSerializer.create` (password hashing) is a library call.
- The WebSocket consumer, settings, URLs, the admin site and the migrations carry no behaviour to verify.
- Room updates through `RoomSerializer`: a capacity change does not recount, so the stored status can go stale. Only room creation is modelled.
- `PaymentSerializer` cannot create any payment in this revision. Its fields include `date`, `paymentType` and a write-only `room`, none of which is a Payment field, so the serializer cannot be built and the create never runs; it also lacks `valid_until` and `method`. Serializers.CreatePayment models the create method as it would run with the model's own fields.
- `check_and_update_debt` calls `payment_set`, but the relation is named `payments`. The model reads the student's payments as the method evidently intends.
- Models.CheckAndUpdateDebt: `None < date` raising TypeError is modelled as the error value CompareWithNull, not as an exception.
- Models.CheckAndUpdateDebt: nothing in the source calls this method. Its `self.save()` is a full student save that fires `track_old_room` and `update_room_on_save`; the effect of that save is Signals.SaveEffect, and no member composes the two. The member returns the new record and whether it is saved.
- Deleting a user or a dormitory: only that row is removed, and the database cascades (dormitories, floors, rooms, students) are not modelled. Deleting a student cascades only to its payments.
- `placement_status` is missing from the model class in this revision (see the line on student creation above). The model gives it the two values `Placement`; its default is not known, so it is an input of student creation.
- Filters.FilterStudents: no view sets `filterset_class`, so the default filter backend never applies `StudentFilter`. Defining the class would also fail, because it reads `Student.PLACEMENT_STATUS_CHOICES`, which the model class does not declare. The model takes the two placement values as the choices and filters as the class would.
- `swagger_fake_view` branches, JWT, file and image fields, and float fields are not modelled.
- Concurrent requests are not modelled: the check-then-act race on the capacity guard is outside a sequential model.
- Integers are unbounded. Amounts and counters are not limited to 32 or 64 bits.
- Filters.FilterStudents: `floor_id` and `max_payment` are NumberFilters whose values are decimals (such as 100.5); the model takes whole numbers only.
- Student.floor and Student.room are optional in the model, but the schema makes both mandatory (a floor default and a non-null room key). So every student saved through the signals becomes 'Joylashdi', and 'Qabul qilindi' (with 'Tekshirilmaydi' as its debt status) is reached only by writes that skip the signals. Model states with a student without a room or a floor are states the source cannot reach. One example: a payment for such a student gives it the status 'Tekshirilmaydi' while the save settles nothing, and Signals.PaymentKeepsReconciled derives the status from the placement stored before that save.
- Serializers.ValidateUser: the role field's own check (only 'student' and 'admin' are valid choices) runs before validate and is not part of this member; roles 'teacher' and 'manager' never reach it through the serializer.
- Text matching folds only ASCII letters, as SQLite's LIKE does. Other case folding is not modelled.

## Findings

| source | as written | input that shows it | evidently intended | confidence | as-written member | corrected member |
|---|---|---|---|---|---|---|
| main/serializers.py:137-142 | the capacity guard reads the stored counter and does not leave out the student being updated | room with capacity 2 and 2 students; updating either student's name while it stays in the room is refused with "room full" | check the counter only when the student moves to another room | high, not executed | Serializers.GuardCountsTheStudentItself | Serializers.UpdateFixedKeepsWithinCapacity |
| main/filters.py:28-31 | `Sum` over no payments is NULL, and `NULL < value` keeps nobody | students 1 and 2, a single payment of 100 by student 2, max_payment=1000: only student 2 is listed | a student who paid nothing has paid less than any positive bound | medium, not executed | Filters.MaxPaymentDropsStudentsWithoutPayments | Filters.CoalescedFilterSpec |
| main/signals.py:150-156 | the room name check runs only when the name changes, so moving a room to another floor is not checked | rooms "101" on floors 1 and 2; room 2 moved to floor 1 without renaming | check whenever the name or the floor changes | medium, not executed | Signals.RoomNameCheckMissesFloorChange | Signals.RoomNameCheckFixedKeepsNamesUnique |
| main/signals.py:131-137 | the floor name check runs only when the name changes, so moving a floor to another dormitory is not checked; FloorSerializer does not expose the dormitory, so only saves outside the API reach this | floors "A" in dormitories 1 and 2; floor 2 moved to dormitory 1 | check whenever the name or the dormitory changes | low, not executed | Signals.FloorNameCheckMissesDormitoryChange | Signals.FloorNameCheckFixedKeepsNamesUnique |
| main/models.py:169-178 | the older debt rule counts cancelled payments and writes lower-case labels outside the field's choices | one CANCELLED payment valid until today: the older rule gives 'haqdor', the signal gives 'Qarzdor' | the signal's rule: approved payments only, labels 'Qarzdor'/'Haqdor' | medium, not executed | Signals.LegacyCountsCancelledPayment | Signals.DeriveStatusSpec |
| main/serializers.py:8-19 | validate reads `attrs.get('dormitory')`, but 'dormitory' is not a declared field, so it is always None | an admin creating a user with role 'student' and their own dormitory is refused ('teacher' and 'manager' are refused earlier by the role field's choices) | the admin's own dormitory is accepted | medium, not executed | Serializers.AdminCannotCreateStaffUser | Serializers.StaffUserNeedsOwnDormitory |
