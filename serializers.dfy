/** The validators of the user, dormitory and student serializers, and the
    create methods that take the dormitory from the requesting admin: a
    student, a floor and a payment are always filed under the dormitory the
    requester administers. */
module Serializers {
  import opened Wrappers
  import opened Models
  import opened Signals

  // ---------------------------------------------------------------------
  // UserSerializer

  const ROLE_TEACHER: string := "teacher"
  const ROLE_MANAGER: string := "manager"

  /** The roles an admin may only hand out inside a dormitory of their own. */
  const STAFF_ROLES: set<string> := {ROLE_TEACHER, ROLE_STUDENT, ROLE_MANAGER}

  /** The fields UserSerializer declares; only these reach validate(). */
  const USER_FIELDS: set<string> := {"id", "username", "password", "role"}

  /** `attrs.get('dormitory')`: the supplied dormitory, when the serializer
      declares such a field. */
  function DormitoryAttr(fields: set<string>, supplied: Option<Dormitory>): (r: Option<Dormitory>)
    ensures "dormitory" in fields ==> r == supplied
    ensures "dormitory" !in fields ==> r.None?
  {
    if "dormitory" in fields then supplied else None
  }

  /** UserSerializer.validate: a requester with role 'admin' who creates a
      teacher, student or manager must name a dormitory that requester
      administers; every other request passes. */
  function ValidateUser(requester: User, role: Option<string>, dormitory: Option<Dormitory>): (r: Outcome<Error>)
    ensures r.Fail? ==> r.error == ForeignDormitory
    ensures requester.role != ROLE_ADMIN ==> r.Pass?
    ensures role.None? || role.value !in STAFF_ROLES ==> r.Pass?
    ensures r.Pass? && requester.role == ROLE_ADMIN && role.Some? && role.value in STAFF_ROLES ==>
              dormitory.Some? && dormitory.value.admin == requester.id
    ensures dormitory.Some? && dormitory.value.admin == requester.id ==> r.Pass?
  {
    if requester.role == ROLE_ADMIN && role.Some? && role.value in STAFF_ROLES
       && (dormitory.None? || dormitory.value.admin != requester.id)
    then Fail(ForeignDormitory)
    else Pass
  }

  /** Because 'dormitory' is not among the declared fields, an admin can
      never create a teacher, student or manager, whatever dormitory the
      request carries. */
  lemma AdminCannotCreateStaffUser(requester: User, role: string, supplied: Option<Dormitory>)
    requires requester.role == ROLE_ADMIN && role in STAFF_ROLES
    ensures ValidateUser(requester, Some(role), DormitoryAttr(USER_FIELDS, supplied)) == Fail(ForeignDormitory)
  {
    assert "dormitory" !in USER_FIELDS;
  }

  /** The fields with the dormitory the validator reads. */
  const USER_FIELDS_WITH_DORMITORY: set<string> := USER_FIELDS + {"dormitory"}

  /** Once the serializer declares the field, an admin creates a teacher,
      student or manager exactly when the dormitory named is the admin's own. */
  lemma StaffUserNeedsOwnDormitory(requester: User, role: string, supplied: Option<Dormitory>)
    requires requester.role == ROLE_ADMIN && role in STAFF_ROLES
    ensures ValidateUser(requester, Some(role), DormitoryAttr(USER_FIELDS_WITH_DORMITORY, supplied)).Pass? <==>
              supplied.Some? && supplied.value.admin == requester.id
  {
    assert "dormitory" in USER_FIELDS_WITH_DORMITORY;
  }

  // ---------------------------------------------------------------------
  // DormitorySerializer

  /** DormitorySerializer.validate: the chosen admin must not administer
      another dormitory; on update the dormitory itself is not counted. An
      absent admin (a partial update) matches no dormitory. */
  function ValidateDormitory(dorms: map<DormId, Dormitory>, instance: Option<DormId>, admin: Option<UserId>): (r: Outcome<Error>)
    ensures r.Fail? ==> r.error == DormitoryTaken
    ensures r.Pass? <==>
              admin.None? || forall d :: d in dorms && dorms[d].admin == admin.value ==> instance == Some(d)
  {
    if admin.Some? && exists d :: d in dorms && dorms[d].admin == admin.value && instance != Some(d)
    then Fail(DormitoryTaken)
    else Pass
  }

  /** No user administers two dormitories. */
  ghost predicate OneDormitoryPerAdmin(dorms: map<DormId, Dormitory>)
  {
    forall a, b :: a in dorms && b in dorms && dorms[a].admin == dorms[b].admin ==> a == b
  }

  /** A dormitory written after the validator passed (a new row, or the row
      being updated) keeps every admin at one dormitory at most. */
  lemma ValidatedWriteKeepsOneDormitoryPerAdmin(dorms: map<DormId, Dormitory>, instance: Option<DormId>,
                                                id: DormId, dorm: Dormitory)
    requires OneDormitoryPerAdmin(dorms)
    requires instance.Some? ==> instance.value == id
    requires instance.None? ==> id !in dorms
    requires ValidateDormitory(dorms, instance, Some(dorm.admin)).Pass?
    ensures OneDormitoryPerAdmin(dorms[id := dorm])
  {
  }

  /** Under the one-dormitory rule, `Dormitory.objects.get(admin=u)` finds
      the dormitory of every user who administers one. */
  lemma OneDormitoryPerAdminMakesLookupSucceed(dorms: map<DormId, Dormitory>, u: UserId, d: DormId)
    requires OneDormitoryPerAdmin(dorms)
    requires d in dorms && dorms[d].admin == u
    ensures AdminDormitory(dorms, u) == Ok(d)
  {
    var ds := DormitoriesOf(dorms, u);
    assert d in ds;
    assert ds == {d} by {
      forall e | e in ds ensures e == d {
        assert dorms[e].admin == dorms[d].admin;
      }
    }
  }

  // ---------------------------------------------------------------------
  // StudentSerializer

  /** StudentSerializer.validate: the room chosen must have a free place by
      its stored counter, not by a live count. */
  function StudentRoomGuard(room: Room): (r: Outcome<Error>)
    ensures r.Fail? ==> r.error == RoomFull
    ensures r.Pass? ==> room.currentOccupancy < room.capacity
    ensures room.currentOccupancy < room.capacity ==> r.Pass?
  {
    if room.currentOccupancy >= room.capacity then Fail(RoomFull) else Pass
  }

  /** On a room whose counter is right, the guard admits exactly when the
      room has fewer students than places: a FULLY_OCCUPIED room is always
      turned away, and so is an empty room without places, although it is
      AVAILABLE. */
  lemma GuardOnConsistentRoom(room: Room, count: nat)
    requires Consistent(room, count)
    ensures StudentRoomGuard(room).Pass? <==> count < room.capacity
    ensures room.status == FullyOccupied ==> StudentRoomGuard(room).Fail?
    ensures room.status == Available && room.capacity <= 0 ==> StudentRoomGuard(room).Fail?
    ensures room.status == PartiallyOccupied ==> StudentRoomGuard(room).Pass?
  {
  }

  /** The fields a student form carries; the room and the floor are primary
      keys the serializer resolves. */
  datatype StudentForm = StudentForm(user: Option<UserId>, name: string, lastName: Option<string>,
                                     floor: FloorId, room: RoomId, placement: Placement)

  /** The record StudentSerializer.create saves: the form, with the admin's
      dormitory and the model's default status. */
  function Enrolled(form: StudentForm, dormitory: DormId): (s: Student)
    ensures s.dormitory == dormitory && s.status == QARZDOR
    ensures s.floor == Some(form.floor) && s.room == Some(form.room)
    ensures s.name == form.name && s.lastName == form.lastName && s.user == form.user && s.placement == form.placement
  {
    NewStudent(form.user, form.name, form.lastName, dormitory, Some(form.floor), Some(form.room), form.placement)
  }

  /** StudentSerializer.create as a value: the floor and room must be among
      the field's choices, the room must pass the guard, and the requester
      must administer exactly one dormitory; then the student is saved, with
      the signals that fire, under that dormitory. */
  function StudentCreation(db: Db, requester: UserId, id: StudentId, form: StudentForm,
                           floorChoices: set<FloorId>, roomChoices: set<RoomId>): (r: Result<Db, Error>)
    requires id !in db.students && roomChoices <= db.rooms.Keys
    ensures r.Ok? <==>
              && form.floor in floorChoices && form.room in roomChoices
              && db.rooms[form.room].currentOccupancy < db.rooms[form.room].capacity
              && |DormitoriesOf(db.dormitories, requester)| == 1
    ensures r.Err? && (form.floor !in floorChoices || form.room !in roomChoices) ==> r.error == InvalidPk
    ensures r.Err? && r.error == RoomFull ==> form.room in roomChoices
    ensures r.Ok? ==> id in r.value.students && DormitoriesOf(db.dormitories, requester) == {r.value.students[id].dormitory}
    ensures r.Ok? ==> r.value.rooms.Keys == db.rooms.Keys
  {
    if form.floor !in floorChoices || form.room !in roomChoices then Err(InvalidPk)
    else if StudentRoomGuard(db.rooms[form.room]).Fail? then Err(RoomFull)
    else
      match AdminDormitory(db.dormitories, requester)
      case Err(e) => Err(e)
      case Ok(d) => Ok(SaveEffect(db, id, Enrolled(form, d)))
  }

  /** StudentSerializer.create, with the recount it repeats after the save. */
  method CreateStudent(db: Database, requester: UserId, id: StudentId, form: StudentForm,
                       floorChoices: set<FloorId>, roomChoices: set<RoomId>) returns (r: Outcome<Error>)
    requires db.Valid() && id !in db.students && roomChoices <= db.rooms.Keys
    modifies db
    ensures var expected := StudentCreation(old(db.State()), requester, id, form, floorChoices, roomChoices);
            && (r.Pass? <==> expected.Ok?)
            && (r.Pass? ==> db.State() == expected.value)
            && (r.Fail? ==> r.error == expected.error && db.State() == old(db.State()))
    ensures db.Valid()
  {
    if form.floor !in floorChoices || form.room !in roomChoices {
      return Fail(InvalidPk);
    }
    var room := db.rooms[form.room];
    if room.currentOccupancy >= room.capacity {
      return Fail(RoomFull);
    }
    var dormitory := AdminDormitory(db.dormitories, requester);
    if dormitory.Err? {
      return Fail(dormitory.error);
    }
    db.SaveStudent(id, Enrolled(form, dormitory.value));
    ghost var saved := db.rooms;
    RecountIdempotent(saved[form.room], |Occupants(db.students, form.room)|);
    db.UpdateRoomStatus(Some(form.room));
    assert db.rooms == saved;
    r := Pass;
  }

  /** The rooms whose live number of students is within their capacity
      (an empty room always is). */
  ghost predicate WithinCapacity(db: Db)
  {
    forall r :: r in db.rooms ==> Occupants(db.students, r) == {} || |Occupants(db.students, r)| <= db.rooms[r].capacity
  }

  /** A created student is placed in the room it asked for, under the
      admin's dormitory, with status 'Qarzdor'; and starting from a
      reconciled database, the creation keeps it reconciled and never
      pushes a room past its capacity. */
  lemma CreationKeepsWithinCapacity(db: Db, requester: UserId, id: StudentId, form: StudentForm,
                                    floorChoices: set<FloorId>, roomChoices: set<RoomId>)
    requires Reconciled(db) && WithinCapacity(db) && id !in db.students && roomChoices <= db.rooms.Keys
    requires StudentCreation(db, requester, id, form, floorChoices, roomChoices).Ok?
    ensures var after := StudentCreation(db, requester, id, form, floorChoices, roomChoices).value;
            && Reconciled(after) && WithinCapacity(after)
            && after.students[id].room == Some(form.room) && after.students[id].status == QARZDOR
            && after.students[id].placement == Joylashdi
  {
    var d := AdminDormitory(db.dormitories, requester).value;
    var st := Enrolled(form, d);
    var after := SaveEffect(db, id, st);
    SaveKeepsReconciled(db, id, st);
    forall r | r in after.rooms
      ensures Occupants(after.students, r) == {} || |Occupants(after.students, r)| <= after.rooms[r].capacity
    {
      OccupantsAfterWrite(db.students, id, PlacedOnSave(st), r);
      if r == form.room {
        assert |Occupants(db.students, r)| == db.rooms[r].currentOccupancy;
        assert |Occupants(db.students, r) + {id}| <= |Occupants(db.students, r)| + 1;
      } else {
        assert |Occupants(db.students, r) - {id}| <= |Occupants(db.students, r)|;
      }
    }
  }

  /** One request to create a student. */
  datatype Creation = Creation(requester: UserId, id: StudentId, form: StudentForm)

  /** A sequence of creations against the unrestricted choices (every floor
      and every room); a rejected request leaves the database as it was, and
      so does a request naming a key already stored, since a creation always
      inserts a new row. */
  function CreateAll(db: Db, requests: seq<Creation>): (r: Db)
    ensures r.rooms.Keys == db.rooms.Keys
    decreases |requests|
  {
    if requests == [] then db
    else
      var q := requests[0];
      if q.id in db.students then CreateAll(db, requests[1..])
      else
        var step := StudentCreation(db, q.requester, q.id, q.form, db.floors.Keys, db.rooms.Keys);
        CreateAll(if step.Ok? then step.value else db, requests[1..])
  }

  /** However many guarded creations run one after another, no room ends
      up with more students than it has places. */
  lemma {:induction false} CreateAllKeepsWithinCapacity(db: Db, requests: seq<Creation>)
    requires Reconciled(db) && WithinCapacity(db)
    ensures Reconciled(CreateAll(db, requests)) && WithinCapacity(CreateAll(db, requests))
    decreases |requests|
  {
    if requests != [] && requests[0].id in db.students {
      CreateAllKeepsWithinCapacity(db, requests[1..]);
    } else if requests != [] {
      var q := requests[0];
      var step := StudentCreation(db, q.requester, q.id, q.form, db.floors.Keys, db.rooms.Keys);
      if step.Ok? {
        CreationKeepsWithinCapacity(db, q.requester, q.id, q.form, db.floors.Keys, db.rooms.Keys);
        CreateAllKeepsWithinCapacity(step.value, requests[1..]);
      } else {
        CreateAllKeepsWithinCapacity(db, requests[1..]);
      }
    }
  }

  /** An update through StudentSerializer: the form's fields replace the
      stored ones after the same field and guard checks as a creation, and
      the save fires the student signals. */
  function StudentUpdate(db: Db, id: StudentId, form: StudentForm,
                         floorChoices: set<FloorId>, roomChoices: set<RoomId>): (r: Result<Db, Error>)
    requires id in db.students && roomChoices <= db.rooms.Keys
    ensures r.Ok? <==>
              && form.floor in floorChoices && form.room in roomChoices
              && db.rooms[form.room].currentOccupancy < db.rooms[form.room].capacity
    ensures r.Ok? ==> id in r.value.students && r.value.students[id].room == Some(form.room)
                      && r.value.students[id].dormitory == db.students[id].dormitory
                      && r.value.students[id].placement == Joylashdi
  {
    if form.floor !in floorChoices || form.room !in roomChoices then Err(InvalidPk)
    else if StudentRoomGuard(db.rooms[form.room]).Fail? then Err(RoomFull)
    else
      var st := db.students[id].(user := form.user, name := form.name, lastName := form.lastName,
                                 floor := Some(form.floor), room := Some(form.room));
      Ok(SaveEffect(db, id, st))
  }

  /** The guard does not leave the student itself out of the count: a
      student in a room with no free place cannot be saved again in that
      room, not even to change a name. */
  lemma GuardCountsTheStudentItself(db: Db, id: StudentId, form: StudentForm,
                                    floorChoices: set<FloorId>, roomChoices: set<RoomId>)
    requires Reconciled(db) && id in db.students && roomChoices <= db.rooms.Keys
    requires db.students[id].room == Some(form.room) && form.room in db.rooms
    requires |Occupants(db.students, form.room)| >= db.rooms[form.room].capacity
    ensures StudentUpdate(db, id, form, floorChoices, roomChoices).Err?
  {
    assert Consistent(db.rooms[form.room], |Occupants(db.students, form.room)|);
  }

  /** The update as evidently intended: the guard applies only when the
      student moves to another room, where the stored counter does not yet
      include the student. */
  function StudentUpdateFixed(db: Db, id: StudentId, form: StudentForm,
                              floorChoices: set<FloorId>, roomChoices: set<RoomId>): (r: Result<Db, Error>)
    requires id in db.students && roomChoices <= db.rooms.Keys
    ensures r.Ok? <==>
              && form.floor in floorChoices && form.room in roomChoices
              && (db.students[id].room == Some(form.room) ||
                  db.rooms[form.room].currentOccupancy < db.rooms[form.room].capacity)
    ensures r.Ok? ==> id in r.value.students && r.value.students[id].room == Some(form.room)
                      && r.value.students[id].dormitory == db.students[id].dormitory
    ensures StudentUpdate(db, id, form, floorChoices, roomChoices).Ok? ==>
              r == StudentUpdate(db, id, form, floorChoices, roomChoices)
  {
    if form.floor !in floorChoices || form.room !in roomChoices then Err(InvalidPk)
    else if db.students[id].room != Some(form.room) && StudentRoomGuard(db.rooms[form.room]).Fail? then Err(RoomFull)
    else
      var st := db.students[id].(user := form.user, name := form.name, lastName := form.lastName,
                                 floor := Some(form.floor), room := Some(form.room));
      Ok(SaveEffect(db, id, st))
  }

  /** The corrected update still never pushes a room past its capacity,
      and keeps the database reconciled. */
  lemma UpdateFixedKeepsWithinCapacity(db: Db, id: StudentId, form: StudentForm,
                                       floorChoices: set<FloorId>, roomChoices: set<RoomId>)
    requires Reconciled(db) && WithinCapacity(db) && id in db.students && roomChoices <= db.rooms.Keys
    requires StudentUpdateFixed(db, id, form, floorChoices, roomChoices).Ok?
    ensures var after := StudentUpdateFixed(db, id, form, floorChoices, roomChoices).value;
            Reconciled(after) && WithinCapacity(after)
  {
    var st := db.students[id].(user := form.user, name := form.name, lastName := form.lastName,
                               floor := Some(form.floor), room := Some(form.room));
    var after := SaveEffect(db, id, st);
    SaveKeepsReconciled(db, id, st);
    forall r | r in after.rooms
      ensures Occupants(after.students, r) == {} || |Occupants(after.students, r)| <= after.rooms[r].capacity
    {
      OccupantsAfterWrite(db.students, id, PlacedOnSave(st), r);
      if r == form.room {
        if db.students[id].room == Some(r) {
          assert id in Occupants(db.students, r);
          assert Occupants(after.students, r) == Occupants(db.students, r);
        } else {
          assert |Occupants(db.students, r)| == db.rooms[r].currentOccupancy;
          assert |Occupants(db.students, r) + {id}| <= |Occupants(db.students, r)| + 1;
        }
      } else {
        assert |Occupants(db.students, r) - {id}| <= |Occupants(db.students, r)|;
      }
    }
  }

  // ---------------------------------------------------------------------
  // FloorSerializer and PaymentSerializer

  /** FloorSerializer.create: the floor is filed under the admin's
      dormitory, then saved through the floor-name check. */
  method CreateFloor(db: Database, requester: UserId, id: FloorId, name: string, gender: Gender)
    returns (r: Outcome<Error>)
    requires db.Valid() && id !in db.floors
    modifies db
    ensures var d := AdminDormitory(old(db.dormitories), requester);
            && (d.Err? ==> r == Fail(d.error) && db.floors == old(db.floors))
            && (d.Ok? ==> var f := Floor(name, d.value, gender);
                          && r == (if FloorNameCheck(old(db.floors), None, f) then Pass else Fail(DuplicateName))
                          && db.floors == if r.Pass? then old(db.floors)[id := f] else old(db.floors))
    ensures db.State() == old(db.State()).(floors := db.floors)
    ensures db.Valid()
  {
    var dormitory := AdminDormitory(db.dormitories, requester);
    if dormitory.Err? {
      return Fail(dormitory.error);
    }
    r := db.InsertFloor(id, Floor(name, dormitory.value, gender));
  }

  /** PaymentSerializer.create: the student must be among the field's
      choices; the payment is filed under the admin's dormitory and saved,
      which fires the status signal. */
  method CreatePayment(db: Database, requester: UserId, studentChoices: set<StudentId>, student: StudentId,
                       amount: int, validUntil: Option<Date>, status: PaymentStatus, today: Date)
    returns (r: Outcome<Error>)
    requires db.Valid() && studentChoices <= db.students.Keys
    modifies db
    ensures var d := AdminDormitory(old(db.dormitories), requester);
            && (student !in studentChoices ==> r == Fail(InvalidPk))
            && (student in studentChoices && d.Err? ==> r == Fail(d.error))
            && (student in studentChoices && d.Ok? ==> r.Pass?)
            && (r.Fail? ==> db.State() == old(db.State()))
            && (r.Pass? ==>
                  && student in studentChoices && d.Ok?
                  && db.State() == PaymentEffect(old(db.State()), None,
                                                 Payment(student, d.value, amount, validUntil, status), today))
    ensures db.Valid()
  {
    if student !in studentChoices {
      return Fail(InvalidPk);
    }
    var dormitory := AdminDormitory(db.dormitories, requester);
    if dormitory.Err? {
      return Fail(dormitory.error);
    }
    var _ := db.SavePayment(None, Payment(student, dormitory.value, amount, validUntil, status), today);
    r := Pass;
  }
}
