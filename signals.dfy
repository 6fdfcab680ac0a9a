/** The signal handlers that reconcile room occupancy and student debt
    status, the name-uniqueness checks run before a floor or a room is saved,
    and the choice of recipients for a notification.

    The database the handlers work on is the class Database at the end of
    this module; each of its methods is specified by a function on the value
    Db, and the lemmas are stated about those functions. */
module Signals {
  import opened Wrappers
  import opened Models

  // ---------------------------------------------------------------------
  // Room occupancy

  /** The three-way threshold of update_room_status. The count is tested
      against zero first, so an empty room is AVAILABLE even when its
      capacity is zero or negative. */
  function RoomStatusFor(count: nat, capacity: int): (s: RoomStatus)
    ensures s == Available <==> count == 0
    ensures s == PartiallyOccupied <==> 0 < count < capacity
    ensures s == FullyOccupied <==> 0 < count && capacity <= count
  {
    if count == 0 then Available
    else if count < capacity then PartiallyOccupied
    else FullyOccupied
  }

  /** A room whose counter and status agree with `count` students. */
  predicate Consistent(room: Room, count: nat)
  {
    room.currentOccupancy == count && room.status == RoomStatusFor(count, room.capacity)
  }

  /** The two fields update_room_status writes, recomputed for `count`
      students; the other fields of the room are kept. */
  function Recount(room: Room, count: nat): (r: Room)
    ensures Consistent(r, count)
    ensures r.(currentOccupancy := room.currentOccupancy, status := room.status) == room
  {
    room.(currentOccupancy := count, status := RoomStatusFor(count, room.capacity))
  }

  /** Recounting is idempotent, and leaves a consistent room as it is. */
  lemma RecountIdempotent(room: Room, count: nat)
    ensures Recount(Recount(room, count), count) == Recount(room, count)
    ensures Consistent(room, count) <==> Recount(room, count) == room
  {
  }

  // ---------------------------------------------------------------------
  // Student debt status

  /** An approved payment that is still valid on `today`. */
  predicate Covers(p: Payment, today: Date)
  {
    p.status == Approved && p.validUntil.Some? && p.validUntil.value >= today
  }

  /** The status rule of update_student_status_after_payment: a student whose
      application is only received is not evaluated; otherwise the approved
      payment with the greatest valid_until decides. */
  function DeriveStatus(placement: Placement, payments: seq<Payment>, today: Date): (s: string)
    ensures s in MIGRATED_STATUS_CHOICES
    ensures placement == QabulQilindi ==> s == TEKSHIRILMAYDI
  {
    if placement == QabulQilindi then TEKSHIRILMAYDI
    else
      var last := LatestByValidUntil(ApprovedOnly(payments));
      if last.None? || last.value.validUntil.None? || last.value.validUntil.value < today then QARZDOR
      else HAQDOR
  }

  /** For a placed student, 'Haqdor' exactly when some approved payment with
      a date is valid today; cancelled payments and ones without a date never
      count. */
  lemma DeriveStatusSpec(placement: Placement, payments: seq<Payment>, today: Date)
    ensures DeriveStatus(placement, payments, today) ==
            if placement == QabulQilindi then TEKSHIRILMAYDI
            else if exists p :: p in payments && Covers(p, today) then HAQDOR
            else QARZDOR
  {
    if placement != QabulQilindi {
      var approved := ApprovedOnly(payments);
      var last := LatestByValidUntil(approved);
      if p :| p in payments && Covers(p, today) {
        assert p in approved;
        assert last.Some?;
        assert last.value.validUntil.Some?;
        assert last.value.validUntil.value >= p.validUntil.value;
      }
      if DeriveStatus(placement, payments, today) == HAQDOR {
        assert last.value in approved && Covers(last.value, today);
      }
    }
  }

  /** A cancelled payment never changes the derived status. */
  lemma CancelledPaymentIgnored(placement: Placement, payments: seq<Payment>, p: Payment, today: Date)
    requires p.status == Cancelled
    ensures DeriveStatus(placement, payments + [p], today) == DeriveStatus(placement, payments, today)
  {
    DeriveStatusSpec(placement, payments, today);
    DeriveStatusSpec(placement, payments + [p], today);
    if q :| q in payments + [p] && Covers(q, today) {
      assert q in payments;
    }
    if q :| q in payments && Covers(q, today) {
      assert q in payments + [p];
    }
  }

  /** A further payment, whatever its date, never turns 'Haqdor' into
      'Qarzdor': the greatest valid_until governs, not the latest payment. */
  lemma LaterPaymentNeverDowngrades(placement: Placement, payments: seq<Payment>, p: Payment, today: Date)
    requires DeriveStatus(placement, payments, today) == HAQDOR
    ensures DeriveStatus(placement, payments + [p], today) == HAQDOR
  {
    DeriveStatusSpec(placement, payments, today);
    DeriveStatusSpec(placement, payments + [p], today);
    var q :| q in payments && Covers(q, today);
    assert q in payments + [p];
  }

  /** check_and_update_debt disagrees with the signal's rule: a cancelled
      payment still valid today makes it write 'haqdor', where the signal
      derives 'Qarzdor'. */
  lemma LegacyCountsCancelledPayment()
    ensures var p := Payment(1, 0, 500000, Some(10), Cancelled);
            LegacyDebtLabel([p], 10) == Ok(LEGACY_HAQDOR) && DeriveStatus(Joylashdi, [p], 10) == QARZDOR
  {
    var p := Payment(1, 0, 500000, Some(10), Cancelled);
    assert p in [p];
    DeriveStatusSpec(Joylashdi, [p], 10);
    assert !Covers(p, 10);
  }

  // ---------------------------------------------------------------------
  // Name uniqueness within a dormitory (floors) and within a floor (rooms)

  /** Another floor than `exclude` in f's dormitory already has f's name. */
  predicate FloorNameTaken(floors: map<FloorId, Floor>, exclude: Option<FloorId>, f: Floor)
  {
    exists k :: k in floors && Some(k) != exclude && floors[k].dormitory == f.dormitory && floors[k].name == f.name
  }

  /** No two floors of one dormitory share a name. */
  predicate UniqueFloorNames(floors: map<FloorId, Floor>)
  {
    forall a, b :: a in floors && b in floors && a != b && floors[a].dormitory == floors[b].dormitory
                   ==> floors[a].name != floors[b].name
  }

  /** check_floor_name_uniqueness as written: a new floor (no primary key)
      is checked against its dormitory; a stored floor only when its name
      changes, and then against the other floors; a primary key with no
      stored row passes unchecked. */
  function FloorNameCheck(floors: map<FloorId, Floor>, pk: Option<FloorId>, f: Floor): (ok: bool)
    ensures pk.None? ==> (ok <==> !FloorNameTaken(floors, None, f))
    ensures pk.Some? && pk.value in floors ==>
              (ok <==> floors[pk.value].name == f.name || !FloorNameTaken(floors, pk, f))
    ensures pk.Some? && pk.value !in floors ==> ok
  {
    match pk
    case None => !FloorNameTaken(floors, None, f)
    case Some(id) =>
      if id in floors then floors[id].name == f.name || !FloorNameTaken(floors, pk, f)
      else true
  }

  /** Moving a floor to another dormitory without renaming it skips the
      check, and leaves two floors of one name in that dormitory. */
  lemma FloorNameCheckMissesDormitoryChange()
    ensures var floors := map[1 := Floor("A", 1, Male), 2 := Floor("A", 2, Male)];
            var moved := Floor("A", 1, Male);
            UniqueFloorNames(floors) && FloorNameCheck(floors, Some(2), moved) &&
            !UniqueFloorNames(floors[2 := moved])
  {
    var floors := map[1 := Floor("A", 1, Male), 2 := Floor("A", 2, Male)];
    var moved := Floor("A", 1, Male);
    assert floors[2 := moved][1] == floors[2 := moved][2];
  }

  /** The check with the missed cases closed: it runs unless the stored
      floor keeps both its name and its dormitory. */
  function FloorNameCheckFixed(floors: map<FloorId, Floor>, pk: Option<FloorId>, f: Floor): (ok: bool)
    ensures (pk.Some? && pk.value in floors && floors[pk.value].name == f.name &&
             floors[pk.value].dormitory == f.dormitory) ==> ok
    ensures ok ==> FloorNameCheck(floors, pk, f)
  {
    if pk.Some? && pk.value in floors && floors[pk.value].name == f.name && floors[pk.value].dormitory == f.dormitory
    then true
    else !FloorNameTaken(floors, pk, f)
  }

  /** Saving a floor the fixed check admits keeps floor names unique. */
  lemma FloorNameCheckFixedKeepsNamesUnique(floors: map<FloorId, Floor>, pk: Option<FloorId>, id: FloorId, f: Floor)
    requires UniqueFloorNames(floors)
    requires pk.Some? ==> pk.value == id
    requires pk.None? ==> id !in floors
    requires FloorNameCheckFixed(floors, pk, f)
    ensures UniqueFloorNames(floors[id := f])
  {
    var after := floors[id := f];
    forall a, b | a in after && b in after && a != b && after[a].dormitory == after[b].dormitory
      ensures after[a].name != after[b].name
    {
      if a == id {
        assert b in floors && Some(b) != pk;
      } else if b == id {
        assert a in floors && Some(a) != pk;
      }
    }
  }

  /** Another room than `exclude` on r's floor already has r's name. */
  predicate RoomNameTaken(rooms: map<RoomId, Room>, exclude: Option<RoomId>, r: Room)
  {
    exists k :: k in rooms && Some(k) != exclude && rooms[k].floor == r.floor && rooms[k].name == r.name
  }

  /** No two rooms of one floor share a name. */
  predicate UniqueRoomNames(rooms: map<RoomId, Room>)
  {
    forall a, b :: a in rooms && b in rooms && a != b && rooms[a].floor == rooms[b].floor
                   ==> rooms[a].name != rooms[b].name
  }

  /** check_room_name_uniqueness as written, the same shape as the floor check. */
  function RoomNameCheck(rooms: map<RoomId, Room>, pk: Option<RoomId>, r: Room): (ok: bool)
    ensures pk.None? ==> (ok <==> !RoomNameTaken(rooms, None, r))
    ensures pk.Some? && pk.value in rooms ==>
              (ok <==> rooms[pk.value].name == r.name || !RoomNameTaken(rooms, pk, r))
    ensures pk.Some? && pk.value !in rooms ==> ok
  {
    match pk
    case None => !RoomNameTaken(rooms, None, r)
    case Some(id) =>
      if id in rooms then rooms[id].name == r.name || !RoomNameTaken(rooms, pk, r)
      else true
  }

  /** Moving a room to another floor without renaming it skips the check,
      and leaves two rooms of one name on that floor. */
  lemma RoomNameCheckMissesFloorChange()
    ensures var rooms := map[1 := NewRoom("101", 1, 2, Male), 2 := NewRoom("101", 2, 2, Male)];
            var moved := NewRoom("101", 1, 2, Male);
            UniqueRoomNames(rooms) && RoomNameCheck(rooms, Some(2), moved) &&
            !UniqueRoomNames(rooms[2 := moved])
  {
    var rooms := map[1 := NewRoom("101", 1, 2, Male), 2 := NewRoom("101", 2, 2, Male)];
    var moved := NewRoom("101", 1, 2, Male);
    assert rooms[2 := moved][1] == rooms[2 := moved][2];
  }

  /** The room check with the missed cases closed. */
  function RoomNameCheckFixed(rooms: map<RoomId, Room>, pk: Option<RoomId>, r: Room): (ok: bool)
    ensures (pk.Some? && pk.value in rooms && rooms[pk.value].name == r.name &&
             rooms[pk.value].floor == r.floor) ==> ok
    ensures ok ==> RoomNameCheck(rooms, pk, r)
  {
    if pk.Some? && pk.value in rooms && rooms[pk.value].name == r.name && rooms[pk.value].floor == r.floor
    then true
    else !RoomNameTaken(rooms, pk, r)
  }

  /** Saving a room the fixed check admits keeps room names unique. */
  lemma RoomNameCheckFixedKeepsNamesUnique(rooms: map<RoomId, Room>, pk: Option<RoomId>, id: RoomId, r: Room)
    requires UniqueRoomNames(rooms)
    requires pk.Some? ==> pk.value == id
    requires pk.None? ==> id !in rooms
    requires RoomNameCheckFixed(rooms, pk, r)
    ensures UniqueRoomNames(rooms[id := r])
  {
    var after := rooms[id := r];
    forall a, b | a in after && b in after && a != b && after[a].floor == after[b].floor
      ensures after[a].name != after[b].name
    {
      if a == id {
        assert b in rooms && Some(b) != pk;
      } else if b == id {
        assert a in rooms && Some(a) != pk;
      }
    }
  }

  // ---------------------------------------------------------------------
  // Recipients of a notification

  const TARGET_ALL_STUDENTS: string := "all_students"
  const TARGET_ALL_ADMINS: string := "all_admins"
  const TARGET_SPECIFIC_USER: string := "specific_user"

  /** The users create_user_notifications gives a copy of a new notification:
      by role for the two broadcast targets, the named user for a specific
      target, nobody otherwise. */
  function NotificationTargets(users: map<UserId, User>, targetType: string, targetUser: Option<UserId>): (r: set<UserId>)
    ensures targetType == TARGET_ALL_STUDENTS ==> forall u :: u in r <==> u in users && users[u].role == ROLE_STUDENT
    ensures targetType == TARGET_ALL_ADMINS ==> forall u :: u in r <==> u in users && users[u].role == ROLE_ADMIN
    ensures targetType == TARGET_SPECIFIC_USER ==> r == if targetUser.Some? then {targetUser.value} else {}
    ensures targetType !in {TARGET_ALL_STUDENTS, TARGET_ALL_ADMINS, TARGET_SPECIFIC_USER} ==> r == {}
    ensures (targetUser.Some? ==> targetUser.value in users) ==> r <= users.Keys
  {
    if targetType == TARGET_ALL_STUDENTS then set u | u in users && users[u].role == ROLE_STUDENT
    else if targetType == TARGET_ALL_ADMINS then set u | u in users && users[u].role == ROLE_ADMIN
    else if targetType == TARGET_SPECIFIC_USER then (if targetUser.Some? then {targetUser.value} else {})
    else {}
  }
  /** The two broadcasts reach disjoint audiences, which together cover
      every user once each user has one of the role field's two choices;
      a specific target reaches at most one user. */
  lemma BroadcastAudiencesPartitionUsers(users: map<UserId, User>, targetUser: Option<UserId>)
    ensures NotificationTargets(users, TARGET_ALL_STUDENTS, targetUser) * NotificationTargets(users, TARGET_ALL_ADMINS, targetUser) == {}
    ensures (forall u :: u in users ==> users[u].role in {ROLE_STUDENT, ROLE_ADMIN}) ==>
              NotificationTargets(users, TARGET_ALL_STUDENTS, targetUser) + NotificationTargets(users, TARGET_ALL_ADMINS, targetUser) == users.Keys
    ensures |NotificationTargets(users, TARGET_SPECIFIC_USER, targetUser)| <= 1
  {
    var students := NotificationTargets(users, TARGET_ALL_STUDENTS, targetUser);
    var admins := NotificationTargets(users, TARGET_ALL_ADMINS, targetUser);
    assert forall u :: u in students ==> u !in admins;
  }


  // ---------------------------------------------------------------------
  // The database, as a value

  datatype Db = Db(rooms: map<RoomId, Room>, students: map<StudentId, Student>, payments: seq<Payment>,
                   floors: map<FloorId, Floor>, dormitories: map<DormId, Dormitory>)

  /** What every student add, move and delete re-establishes: a student's
      room and a payment's student are stored rows, every room's counter and
      status agree with its live student set, and floor and room names are
      unique in their scope. The other references (floor to dormitory, room
      to floor, student to dormitory and floor, payment to dormitory) are
      not constrained. */
  ghost predicate Reconciled(db: Db)
  {
    && (forall s :: s in db.students && db.students[s].room.Some? ==> db.students[s].room.value in db.rooms)
    && (forall i :: 0 <= i < |db.payments| ==> db.payments[i].student in db.students)
    && (forall r :: r in db.rooms ==> Consistent(db.rooms[r], |Occupants(db.students, r)|))
    && UniqueRoomNames(db.rooms)
    && UniqueFloorNames(db.floors)
  }

  /** update_room_status on a value: recount room `r` against `students`;
      nothing happens when there is no such room. */
  function Refresh(rooms: map<RoomId, Room>, students: map<StudentId, Student>, r: Option<RoomId>): map<RoomId, Room>
  {
    if r.Some? && r.value in rooms then rooms[r.value := Recount(rooms[r.value], |Occupants(students, r.value)|)]
    else rooms
  }

  /** Rooms `a` and `b` recounted against `students`, every other room kept. */
  function RecountRooms(rooms: map<RoomId, Room>, students: map<StudentId, Student>,
                        a: Option<RoomId>, b: Option<RoomId>): map<RoomId, Room>
  {
    map r | r in rooms :: if Some(r) == a || Some(r) == b then Recount(rooms[r], |Occupants(students, r)|) else rooms[r]
  }

  lemma RefreshPair(rooms: map<RoomId, Room>, students: map<StudentId, Student>, a: Option<RoomId>, b: Option<RoomId>)
    ensures Refresh(Refresh(rooms, students, a), students, b) == RecountRooms(rooms, students, a, b)
  {
    var once := Refresh(rooms, students, a);
    var twice := Refresh(once, students, b);
    var spec := RecountRooms(rooms, students, a, b);
    assert twice.Keys == spec.Keys;
    forall r | r in spec ensures twice[r] == spec[r] {
      RecountIdempotent(rooms[r], |Occupants(students, r)|);
    }
  }

  /** The room the stored record of student `id` is in (track_old_room);
      none for a student not stored yet. */
  function OldRoom(db: Db, id: StudentId): Option<RoomId>
  {
    if id in db.students then db.students[id].room else None
  }

  /** The placement update_room_on_save gives a student with a floor and a room. */
  function PlacedOnSave(st: Student): (r: Student)
    ensures r.floor.Some? && r.room.Some? ==> r.placement == Joylashdi
    ensures r.(placement := st.placement) == st
    ensures !(st.floor.Some? && st.room.Some?) ==> r == st
  {
    if st.floor.Some? && st.room.Some? then st.(placement := Joylashdi) else st
  }

  /** Saving student `id` as `st`, with the signals it fires: the record is
      written with its placement settled, and both the room it left and the
      room it is in are recounted. */
  function SaveEffect(db: Db, id: StudentId, st: Student): (r: Db)
    ensures r.students == db.students[id := PlacedOnSave(st)]
    ensures r.payments == db.payments && r.floors == db.floors && r.dormitories == db.dormitories
    ensures r.rooms.Keys == db.rooms.Keys
  {
    var students := db.students[id := PlacedOnSave(st)];
    db.(students := students, rooms := RecountRooms(db.rooms, students, OldRoom(db, id), st.room))
  }

  /** The payments table without the payments of student `id` (the cascade). */
  function WithoutPaymentsOf(payments: seq<Payment>, id: StudentId): (r: seq<Payment>)
    ensures forall p :: p in r <==> p in payments && p.student != id
  {
    Filter(payments, (p: Payment) => p.student != id)
  }

  /** Deleting student `id`: its payments go with it, and its room is recounted. */
  function DeleteEffect(db: Db, id: StudentId): (r: Db)
    requires id in db.students
    ensures r.students == db.students - {id}
    ensures forall p :: p in r.payments <==> p in db.payments && p.student != id
    ensures r.floors == db.floors && r.dormitories == db.dormitories
    ensures r.rooms.Keys == db.rooms.Keys
    ensures forall x :: x in db.rooms && Some(x) != db.students[id].room ==> r.rooms[x] == db.rooms[x]
    ensures db.students[id].room.Some? && db.students[id].room.value in db.rooms ==>
              Consistent(r.rooms[db.students[id].room.value], |Occupants(r.students, db.students[id].room.value)|)
  {
    var students := db.students - {id};
    db.(students := students, payments := WithoutPaymentsOf(db.payments, id),
        rooms := RecountRooms(db.rooms, students, db.students[id].room, None))
  }

  /** Saving payment `p` (a new row, or row `pk`), and the status signal:
      the student's status is rewritten, through a full student save, only
      when the derived value differs from the stored one. */
  function PaymentEffect(db: Db, pk: Option<nat>, p: Payment, today: Date): (r: Db)
    requires p.student in db.students
    requires pk.Some? ==> pk.value < |db.payments|
    ensures pk.None? ==> r.payments == db.payments + [p]
    ensures pk.Some? ==> r.payments == db.payments[pk.value := p]
    ensures r.students.Keys == db.students.Keys
    ensures forall s :: s in db.students && s != p.student ==> r.students[s] == db.students[s]
    ensures r.students[p.student].status ==
            DeriveStatus(db.students[p.student].placement, PaymentsOf(r.payments, p.student), today)
    ensures r.floors == db.floors && r.dormitories == db.dormitories && r.rooms.Keys == db.rooms.Keys
  {
    var payments := if pk.Some? then db.payments[pk.value := p] else db.payments + [p];
    var student := db.students[p.student];
    var status := DeriveStatus(student.placement, PaymentsOf(payments, p.student), today);
    var written := db.(payments := payments);
    if student.status == status then written else SaveEffect(written, p.student, student.(status := status))
  }

  // ---------------------------------------------------------------------
  // What the effects preserve

  lemma OccupantsAfterWrite(students: map<StudentId, Student>, id: StudentId, st: Student, r: RoomId)
    ensures Occupants(students[id := st], r) ==
            if st.room == Some(r) then Occupants(students, r) + {id} else Occupants(students, r) - {id}
  {
  }

  lemma OccupantsAfterRemove(students: map<StudentId, Student>, id: StudentId, r: RoomId)
    ensures Occupants(students - {id}, r) == Occupants(students, r) - {id}
  {
  }

  /** Recounting rooms keeps their names and floors. */
  lemma RecountKeepsRoomNames(rooms: map<RoomId, Room>, students: map<StudentId, Student>, a: Option<RoomId>, b: Option<RoomId>)
    requires UniqueRoomNames(rooms)
    ensures UniqueRoomNames(RecountRooms(rooms, students, a, b))
  {
    var after := RecountRooms(rooms, students, a, b);
    forall r | r in after ensures after[r].name == rooms[r].name && after[r].floor == rooms[r].floor {
    }
  }

  /** Saving a student whose room exists keeps the database reconciled. */
  lemma SaveKeepsReconciled(db: Db, id: StudentId, st: Student)
    requires Reconciled(db)
    requires st.room.Some? ==> st.room.value in db.rooms
    ensures Reconciled(SaveEffect(db, id, st))
  {
    var after := SaveEffect(db, id, st);
    var before := OldRoom(db, id);
    forall r | r in after.rooms ensures Consistent(after.rooms[r], |Occupants(after.students, r)|) {
      if !(Some(r) == before || Some(r) == st.room) {
        OccupantsAfterWrite(db.students, id, PlacedOnSave(st), r);
        assert id in db.students ==> db.students[id].room != Some(r);
        assert Occupants(after.students, r) == Occupants(db.students, r);
      }
    }
    RecountKeepsRoomNames(db.rooms, after.students, before, st.room);
  }

  /** The tables a save leaves behind, assembled field by field, are the
      save effect, and it keeps a reconciled database reconciled. */
  lemma SaveEffectFrom(db: Db, id: StudentId, st: Student,
                       students: map<StudentId, Student>, rooms: map<RoomId, Room>)
    requires Reconciled(db) && (st.room.Some? ==> st.room.value in db.rooms)
    requires students == db.students[id := PlacedOnSave(st)]
    requires rooms == RecountRooms(db.rooms, students, OldRoom(db, id), st.room)
    ensures SaveEffect(db, id, st) == db.(students := students, rooms := rooms)
    ensures Reconciled(db.(students := students, rooms := rooms))
  {
    SaveKeepsReconciled(db, id, st);
  }

  /** A save changes two counters at most: the room the student enters
      gains one (unless the student was already in it), and the room the
      student leaves loses one. */
  lemma SaveMovesOneStudent(db: Db, id: StudentId, st: Student, target: RoomId)
    requires Reconciled(db)
    requires st.room == Some(target) && target in db.rooms
    ensures var after := SaveEffect(db, id, st);
            && after.rooms[target].currentOccupancy ==
               db.rooms[target].currentOccupancy + (if OldRoom(db, id) == Some(target) then 0 else 1)
            && (forall r :: r in db.rooms && OldRoom(db, id) == Some(r) && r != target ==>
                  after.rooms[r].currentOccupancy == db.rooms[r].currentOccupancy - 1)
            && (forall r :: r in db.rooms && OldRoom(db, id) != Some(r) && r != target ==>
                  after.rooms[r] == db.rooms[r])
  {
    var after := SaveEffect(db, id, st);
    OccupantsAfterWrite(db.students, id, PlacedOnSave(st), target);
    if OldRoom(db, id) == Some(target) {
      assert id in Occupants(db.students, target);
      assert Occupants(after.students, target) == Occupants(db.students, target);
    } else {
      assert id !in Occupants(db.students, target);
    }
    forall r | r in db.rooms && OldRoom(db, id) == Some(r) && r != target
      ensures after.rooms[r].currentOccupancy == db.rooms[r].currentOccupancy - 1
    {
      OccupantsAfterWrite(db.students, id, PlacedOnSave(st), r);
      assert id in Occupants(db.students, r);
    }
  }

  /** Deleting a student keeps the database reconciled. */
  lemma DeleteKeepsReconciled(db: Db, id: StudentId)
    requires Reconciled(db) && id in db.students
    ensures Reconciled(DeleteEffect(db, id))
  {
    var after := DeleteEffect(db, id);
    var room := db.students[id].room;
    forall r | r in after.rooms ensures Consistent(after.rooms[r], |Occupants(after.students, r)|) {
      if Some(r) != room {
        OccupantsAfterRemove(db.students, id, r);
        assert Occupants(after.students, r) == Occupants(db.students, r);
      }
    }
    forall i | 0 <= i < |after.payments| ensures after.payments[i].student in after.students {
      assert after.payments[i] in after.payments;
      assert after.payments[i] in db.payments;
    }
    RecountKeepsRoomNames(db.rooms, after.students, room, None);
  }

  /** Deleting a student lowers the counter of the room it was in by one,
      and leaves every other room as it was. */
  lemma DeleteFreesOnePlace(db: Db, id: StudentId)
    requires Reconciled(db) && id in db.students
    ensures var after := DeleteEffect(db, id);
            && (forall r :: r in db.rooms && db.students[id].room == Some(r) ==>
                  after.rooms[r].currentOccupancy == db.rooms[r].currentOccupancy - 1)
            && (forall r :: r in db.rooms && db.students[id].room != Some(r) ==> after.rooms[r] == db.rooms[r])
  {
    var after := DeleteEffect(db, id);
    forall r | r in db.rooms && db.students[id].room == Some(r)
      ensures after.rooms[r].currentOccupancy == db.rooms[r].currentOccupancy - 1
    {
      OccupantsAfterRemove(db.students, id, r);
      assert id in Occupants(db.students, r);
    }
  }

  /** Saving a payment keeps the database reconciled, and leaves the
      student's stored status equal to the derived one. */
  lemma PaymentKeepsReconciled(db: Db, pk: Option<nat>, p: Payment, today: Date)
    requires Reconciled(db) && p.student in db.students
    requires pk.Some? ==> pk.value < |db.payments|
    ensures var after := PaymentEffect(db, pk, p, today);
            && Reconciled(after)
            && after.students[p.student].status ==
               DeriveStatus(db.students[p.student].placement, PaymentsOf(after.payments, p.student), today)
  {
    var payments := if pk.Some? then db.payments[pk.value := p] else db.payments + [p];
    var written := db.(payments := payments);
    forall i | 0 <= i < |payments| ensures payments[i].student in written.students {
      if i < |db.payments| && (pk.None? || i != pk.value) {
        assert payments[i] == db.payments[i];
      }
    }
    assert Reconciled(written);
    var student := db.students[p.student];
    var status := DeriveStatus(student.placement, PaymentsOf(payments, p.student), today);
    if student.status != status {
      SaveKeepsReconciled(written, p.student, student.(status := status));
    }
  }

  // ---------------------------------------------------------------------
  // The database and the signal handlers that change it

  /** The stored tables. Each handler changes the fields its `modifies`
      clause names, and says what the new state is in terms of the effect
      functions above. */
  class Database {
    var rooms: map<RoomId, Room>
    var students: map<StudentId, Student>
    var payments: seq<Payment>
    var floors: map<FloorId, Floor>
    var dormitories: map<DormId, Dormitory>

    function State(): Db
      reads this
    {
      Db(rooms, students, payments, floors, dormitories)
    }

    ghost predicate Valid()
      reads this
    {
      Reconciled(State())
    }

    /** An empty database over the given dormitories. */
    constructor (dormitories: map<DormId, Dormitory>)
      ensures State() == Db(map[], map[], [], map[], dormitories)
      ensures Valid()
    {
      rooms, students, payments, floors := map[], map[], [], map[];
      this.dormitories := dormitories;
    }

    /** update_room_status: set the counter to the live number of students
        in the room and the status by the threshold; skip a missing room. */
    method UpdateRoomStatus(r: Option<RoomId>)
      modifies this`rooms
      ensures rooms == Refresh(old(rooms), students, r)
    {
      if r.None? || r.value !in rooms {
        return;
      }
      var room := rooms[r.value];
      var count := |Occupants(students, r.value)|;
      var status;
      if count == 0 {
        status := Available;
      } else if count < room.capacity {
        status := PartiallyOccupied;
      } else {
        status := FullyOccupied;
      }
      rooms := rooms[r.value := room.(currentOccupancy := count, status := status)];
    }

    /** track_old_room: the room the stored record is in, before the save. */
    method TrackOldRoom(id: StudentId) returns (before: Option<RoomId>)
      ensures before == OldRoom(State(), id)
    {
      before := None;
      if id in students {
        before := students[id].room;
      }
    }

    /** update_room_on_save, after student `id` was written: settle its
        placement, recount the room it left (when that is another room) and
        the room it is in. */
    method UpdateRoomOnSave(id: StudentId, before: Option<RoomId>)
      requires id in students
      modifies this`students, this`rooms
      ensures students == old(students)[id := PlacedOnSave(old(students)[id])]
      ensures rooms == RecountRooms(old(rooms), students, before, old(students)[id].room)
    {
      var instance := students[id];
      if instance.floor.Some? && instance.room.Some? {
        if instance.placement != Joylashdi {
          students := students[id := instance.(placement := Joylashdi)];
        }
      }
      ghost var counted := rooms;
      var left: Option<RoomId> := None;
      if before.Some? && before != instance.room {
        left := before;
      }
      UpdateRoomStatus(left);
      UpdateRoomStatus(instance.room);
      RefreshPair(counted, students, left, instance.room);
      assert RecountRooms(counted, students, left, instance.room) == RecountRooms(counted, students, before, instance.room);
    }

    /** Student.save() with its pre_save and post_save signals. */
    method SaveStudent(id: StudentId, st: Student)
      requires Valid()
      requires st.room.Some? ==> st.room.value in rooms
      modifies this`students, this`rooms
      ensures State() == SaveEffect(old(State()), id, st)
      ensures Valid()
    {
      ghost var start := State();
      var before := TrackOldRoom(id);
      students := students[id := st];
      UpdateRoomOnSave(id, before);
      SaveEffectFrom(start, id, st, students, rooms);
      assert State() == start.(students := students, rooms := rooms);
    }

    /** update_room_on_delete: recount the room the deleted student was in. */
    method UpdateRoomOnDelete(instance: Student)
      modifies this`rooms
      ensures rooms == Refresh(old(rooms), students, instance.room)
    {
      if instance.room.Some? {
        UpdateRoomStatus(instance.room);
      }
    }

    /** Student.delete(): the student's payments are deleted with it, then
        the post_delete signal recounts its room. */
    method DeleteStudent(id: StudentId)
      requires Valid() && id in students
      modifies this`students, this`payments, this`rooms
      ensures State() == DeleteEffect(old(State()), id)
      ensures Valid()
    {
      var instance := students[id];
      payments := WithoutPaymentsOf(payments, id);
      students := students - {id};
      UpdateRoomOnDelete(instance);
      RefreshPair(old(rooms), students, instance.room, None);
      DeleteKeepsReconciled(old(State()), id);
    }

    /** update_student_status_after_payment: derive the status of the
        payment's student and save it only when it differs from the stored
        one; `wrote` tells whether it did. */
    method UpdateStudentStatusAfterPayment(p: Payment, today: Date) returns (wrote: bool)
      requires Valid() && p.student in students
      modifies this`students, this`rooms
      ensures var student := old(students)[p.student];
              var status := DeriveStatus(student.placement, PaymentsOf(payments, p.student), today);
              && (wrote <==> student.status != status)
              && State() == if wrote then SaveEffect(old(State()), p.student, student.(status := status))
                            else old(State())
      ensures Valid()
    {
      var student := students[p.student];
      var newStatus;
      if student.placement == QabulQilindi {
        newStatus := TEKSHIRILMAYDI;
      } else {
        var last := LatestByValidUntil(ApprovedOnly(PaymentsOf(payments, p.student)));
        if last.None? || last.value.validUntil.None? || last.value.validUntil.value < today {
          newStatus := QARZDOR;
        } else {
          newStatus := HAQDOR;
        }
      }
      wrote := false;
      if student.status != newStatus {
        SaveStudent(p.student, student.(status := newStatus));
        wrote := true;
      }
    }

    /** Payment.save() (a new row when `pk` is none) with its post_save signal. */
    method SavePayment(pk: Option<nat>, p: Payment, today: Date) returns (wrote: bool)
      requires Valid() && p.student in students
      requires pk.Some? ==> pk.value < |payments|
      modifies this`payments, this`students, this`rooms
      ensures State() == PaymentEffect(old(State()), pk, p, today)
      ensures Valid()
    {
      if pk.Some? {
        payments := payments[pk.value := p];
      } else {
        payments := payments + [p];
      }
      PaymentKeepsReconciled(old(State()), pk, p, today);
      assert Valid() by {
        forall i | 0 <= i < |payments| ensures payments[i].student in students {
          if i < |old(payments)| && (pk.None? || i != pk.value) {
            assert payments[i] == old(payments)[i];
          }
        }
      }
      wrote := UpdateStudentStatusAfterPayment(p, today);
    }

    /** Floor.objects.create: the pre_save name check, then the insert. */
    method InsertFloor(id: FloorId, f: Floor) returns (r: Outcome<Error>)
      requires Valid() && id !in floors
      modifies this`floors
      ensures r == if FloorNameCheck(old(floors), None, f) then Pass else Fail(DuplicateName)
      ensures floors == if r.Pass? then old(floors)[id := f] else old(floors)
      ensures Valid()
    {
      if FloorNameTaken(floors, None, f) {
        return Fail(DuplicateName);
      }
      FloorNameCheckFixedKeepsNamesUnique(floors, None, id, f);
      floors := floors[id := f];
      r := Pass;
    }

    /** Room.objects.create: the pre_save name check, then the insert of a
        room with the model's defaults. */
    method InsertRoom(id: RoomId, name: string, floor: FloorId, capacity: int, gender: Gender)
      returns (r: Outcome<Error>)
      requires Valid() && id !in rooms
      modifies this`rooms
      ensures var room := NewRoom(name, floor, capacity, gender);
              && r == (if RoomNameCheck(old(rooms), None, room) then Pass else Fail(DuplicateName))
              && rooms == if r.Pass? then old(rooms)[id := room] else old(rooms)
      ensures Valid()
    {
      var room := NewRoom(name, floor, capacity, gender);
      if RoomNameTaken(rooms, None, room) {
        return Fail(DuplicateName);
      }
      RoomNameCheckFixedKeepsNamesUnique(rooms, None, id, room);
      assert Occupants(students, id) == {};
      rooms := rooms[id := room];
      r := Pass;
    }
  }
}
