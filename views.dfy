/** The views: which rows each role may list or open, who may delete users
    and dormitories, the choices offered to a dormitory admin creating a
    student or a payment, and the student delete with its recount. */
module Views {
  import opened Wrappers
  import opened Models
  import opened Signals
  import opened Permissions
  import opened Serializers

  // ---------------------------------------------------------------------
  // Role-scoped querysets

  /** The rows a list or detail view starts from: all of them for role
      'admin', those of the requester's dormitory for a dormitory admin,
      none otherwise. */
  datatype Scope = Everything | OwnDormitory(dormitory: DormId) | NoRows

  /** The scoping shared by the floor, room, student, application and
      payment views. The dormitory is looked up with `get`, which fails when
      the requester administers several. */
  function ListScope(dorms: map<DormId, Dormitory>, u: User): (r: Result<Scope, Error>)
    ensures u.role == ROLE_ADMIN ==> r == Ok(Everything)
    ensures u.role != ROLE_ADMIN && DormitoriesOf(dorms, u.id) == {} ==> r == Ok(NoRows)
    ensures u.role != ROLE_ADMIN && DormitoriesOf(dorms, u.id) != {} ==>
              match AdminDormitory(dorms, u.id)
              case Ok(d) => r == Ok(OwnDormitory(d))
              case Err(e) => r == Err(e) && e == MultipleDormitories
  {
    if u.role == ROLE_ADMIN then Ok(Everything)
    else if DormitoriesOf(dorms, u.id) == {} then Ok(NoRows)
    else
      match AdminDormitory(dorms, u.id)
      case Ok(d) => Ok(OwnDormitory(d))
      case Err(e) => Err(e)
  }

  predicate InScope(s: Scope, d: DormId)
  {
    s.Everything? || (s.OwnDormitory? && s.dormitory == d)
  }

  function VisibleFloors(floors: map<FloorId, Floor>, s: Scope): (r: set<FloorId>)
    ensures r <= floors.Keys
  {
    set f | f in floors && InScope(s, floors[f].dormitory)
  }

  /** `Room.objects.filter(floor__in=floors)`, or every room for role 'admin'. */
  function VisibleRooms(rooms: map<RoomId, Room>, floors: map<FloorId, Floor>, s: Scope): (r: set<RoomId>)
    ensures r <= rooms.Keys
  {
    if s.Everything? then rooms.Keys
    else set r | r in rooms && rooms[r].floor in VisibleFloors(floors, s)
  }

  function VisibleStudents(students: map<StudentId, Student>, s: Scope): (r: set<StudentId>)
    ensures r <= students.Keys
  {
    set x | x in students && InScope(s, students[x].dormitory)
  }

  function VisibleApplications(applications: map<nat, Application>, s: Scope): (r: set<nat>)
    ensures r <= applications.Keys
  {
    set a | a in applications && InScope(s, applications[a].dormitory)
  }

  /** The positions of the visible rows of the payments table. */
  function VisiblePayments(payments: seq<Payment>, s: Scope): (r: set<nat>)
    ensures forall i :: i in r ==> i < |payments|
  {
    set i | 0 <= i < |payments| && InScope(s, payments[i].dormitory)
  }

  /** Role 'admin' sees every row of every table; a user who is neither
      role 'admin' nor a dormitory admin sees none. */
  lemma ScopeExtremes(db: Db, applications: map<nat, Application>, u: User)
    ensures u.role == ROLE_ADMIN ==>
              && VisibleFloors(db.floors, Everything) == db.floors.Keys
              && VisibleRooms(db.rooms, db.floors, Everything) == db.rooms.Keys
              && VisibleStudents(db.students, Everything) == db.students.Keys
              && VisibleApplications(applications, Everything) == applications.Keys
              && (forall i :: 0 <= i < |db.payments| ==> i in VisiblePayments(db.payments, Everything))
    ensures u.role != ROLE_ADMIN && DormitoriesOf(db.dormitories, u.id) == {} ==>
              && ListScope(db.dormitories, u) == Ok(NoRows)
              && VisibleFloors(db.floors, NoRows) == {}
              && VisibleRooms(db.rooms, db.floors, NoRows) == {}
              && VisibleStudents(db.students, NoRows) == {}
              && VisibleApplications(applications, NoRows) == {}
              && VisiblePayments(db.payments, NoRows) == {}
  {
  }

  /** A dormitory admin (not of role 'admin') who runs dormitory `d` sees
      exactly the floors, rooms, students, applications and payments of `d`,
      the rooms being those on a floor of `d`. */
  lemma DormitoryAdminSeesOwnRows(db: Db, applications: map<nat, Application>, u: User, d: DormId)
    requires OneDormitoryPerAdmin(db.dormitories)
    requires u.role != ROLE_ADMIN && d in db.dormitories && db.dormitories[d].admin == u.id
    ensures ListScope(db.dormitories, u) == Ok(OwnDormitory(d))
    ensures forall f :: f in VisibleFloors(db.floors, OwnDormitory(d)) <==> f in db.floors && db.floors[f].dormitory == d
    ensures forall r :: r in VisibleRooms(db.rooms, db.floors, OwnDormitory(d)) <==>
              r in db.rooms && db.rooms[r].floor in db.floors && db.floors[db.rooms[r].floor].dormitory == d
    ensures forall x :: x in VisibleStudents(db.students, OwnDormitory(d)) <==>
              x in db.students && db.students[x].dormitory == d
    ensures forall a :: a in VisibleApplications(applications, OwnDormitory(d)) <==>
              a in applications && applications[a].dormitory == d
    ensures forall i :: i in VisiblePayments(db.payments, OwnDormitory(d)) <==>
              0 <= i < |db.payments| && db.payments[i].dormitory == d
  {
    OneDormitoryPerAdminMakesLookupSucceed(db.dormitories, u.id, d);
    assert d in DormitoriesOf(db.dormitories, u.id);
  }

  /** The user list: everyone for role 'admin', otherwise the requester's
      own record. */
  function VisibleUsers(users: map<UserId, User>, u: User): (r: set<UserId>)
    ensures u.role == ROLE_ADMIN ==> r == users.Keys
    ensures u.role != ROLE_ADMIN ==> r <= {u.id} && (u.id in users <==> r == {u.id})
  {
    if u.role == ROLE_ADMIN then users.Keys else set x | x in users && x == u.id
  }

  // ---------------------------------------------------------------------
  // Deleting users and dormitories

  /** UserDetailAPIView's delete: the view's permission, the lookup through
      its queryset, then the role test of perform_destroy. */
  function DestroyUser(users: map<UserId, User>, dorms: map<DormId, Dormitory>, u: User, target: UserId)
    : (r: Result<map<UserId, User>, Error>)
    ensures r.Ok? ==> u.role == ROLE_ADMIN && IsAdminOrDormitoryAdmin(u, dorms)
    ensures r.Ok? ==> target in users && r.value == users - {target}
    ensures u.role != ROLE_ADMIN ==> r.Err?
    ensures u.role == ROLE_ADMIN && IsAdminOrDormitoryAdmin(u, dorms) && target in users ==> r.Ok?
    ensures r.Err? ==> r.error in {PermissionDenied, NotFound}
  {
    if !IsAdminOrDormitoryAdmin(u, dorms) then Err(PermissionDenied)
    else if target !in VisibleUsers(users, u) then Err(NotFound)
    else if u.role != ROLE_ADMIN then Err(PermissionDenied)
    else Ok(users - {target})
  }

  /** DormitoryDetailAPIView's delete: the object permission, then the role
      test of perform_destroy. */
  function DestroyDormitory(dorms: map<DormId, Dormitory>, u: User, target: DormId)
    : (r: Result<map<DormId, Dormitory>, Error>)
    ensures r.Ok? ==> u.role == ROLE_ADMIN && target in dorms && IsOwnerOrIsAdmin(u, dorms[target])
    ensures r.Ok? ==> r.value == dorms - {target}
    ensures u.role != ROLE_ADMIN ==> r.Err?
    ensures target !in dorms ==> r == Err(NotFound)
    ensures u.role == ROLE_ADMIN && target in dorms && IsOwnerOrIsAdmin(u, dorms[target]) ==> r.Ok?
  {
    if target !in dorms then Err(NotFound)
    else if !IsOwnerOrIsAdmin(u, dorms[target]) then Err(PermissionDenied)
    else if u.role != ROLE_ADMIN then Err(PermissionDenied)
    else Ok(dorms - {target})
  }

  /** A superuser whose role is not 'admin' passes both views' permission
      checks and still cannot delete: the two tests read different fields. */
  lemma SuperuserWithoutAdminRoleCannotDelete()
    ensures var u := User(1, true, true, ROLE_STUDENT);
            var dorms := map[7 := Dormitory("A", 2, None)];
            && IsAdminOrDormitoryAdmin(u, dorms) && IsOwnerOrIsAdmin(u, dorms[7])
            && DestroyUser(map[1 := u, 2 := User(2, true, false, ROLE_ADMIN)], dorms, u, 1) == Err(PermissionDenied)
            && DestroyDormitory(dorms, u, 7) == Err(PermissionDenied)
  {
    var u := User(1, true, true, ROLE_STUDENT);
    var users := map[1 := u, 2 := User(2, true, false, ROLE_ADMIN)];
    assert VisibleUsers(users, u) == {1};
  }

  // ---------------------------------------------------------------------
  // Creating students and payments through the views

  /** The floor and room choices StudentCreateAPIView offers. */
  datatype Choices = Choices(floors: set<FloorId>, rooms: set<RoomId>)

  /** `get_object_or_404(Dormitory, admin=user)`: not found when the user
      administers none, an uncaught failure when several. */
  function DormitoryOr404(dorms: map<DormId, Dormitory>, u: UserId): (r: Result<DormId, Error>)
    ensures r.Ok? <==> AdminDormitory(dorms, u).Ok?
    ensures r.Ok? ==> r == AdminDormitory(dorms, u)
    ensures r.Err? ==> r.error == if DormitoriesOf(dorms, u) == {} then NotFound else MultipleDormitories
  {
    match AdminDormitory(dorms, u)
    case Ok(d) => Ok(d)
    case Err(e) => Err(if e == NoDormitory then NotFound else e)
  }

  /** StudentCreateAPIView.get_serializer: the floors of the admin's
      dormitory, and the rooms on those floors. */
  function StudentCreateChoices(db: Db, u: UserId): (r: Result<Choices, Error>)
    ensures r.Ok? <==> DormitoryOr404(db.dormitories, u).Ok?
    ensures r.Ok? ==> var d := DormitoryOr404(db.dormitories, u).value;
                      && (forall f :: f in r.value.floors <==> f in db.floors && db.floors[f].dormitory == d)
                      && (forall x :: x in r.value.rooms <==>
                            x in db.rooms && db.rooms[x].floor in db.floors && db.floors[db.rooms[x].floor].dormitory == d)
    ensures r.Err? ==> r.error == DormitoryOr404(db.dormitories, u).error
  {
    match DormitoryOr404(db.dormitories, u)
    case Err(e) => Err(e)
    case Ok(d) =>
      var floors := VisibleFloors(db.floors, OwnDormitory(d));
      Ok(Choices(floors, set x | x in db.rooms && db.rooms[x].floor in floors))
  }

  /** StudentCreateAPIView: only a dormitory admin may create, and only into
      a floor and a room of that admin's dormitory. */
  method StudentCreateView(db: Database, u: User, id: StudentId, form: StudentForm) returns (r: Outcome<Error>)
    requires db.Valid() && id !in db.students
    modifies db
    ensures r.Pass? ==>
              && IsDormitoryAdmin(u, old(db.dormitories))
              && var d := AdminDormitory(old(db.dormitories), u.id);
                 && d.Ok?
                 && db.State() == SaveEffect(old(db.State()), id, Enrolled(form, d.value))
                 && form.room in db.rooms && db.rooms[form.room].floor in db.floors
                 && db.floors[db.rooms[form.room].floor].dormitory == d.value
                 && form.floor in db.floors && db.floors[form.floor].dormitory == d.value
    ensures r.Fail? ==> db.State() == old(db.State())
    ensures !IsDormitoryAdmin(u, old(db.dormitories)) ==> r == Fail(PermissionDenied)
    ensures var c := StudentCreateChoices(old(db.State()), u.id);
            r.Pass? <==>
              && IsDormitoryAdmin(u, old(db.dormitories)) && c.Ok?
              && StudentCreation(old(db.State()), u.id, id, form, c.value.floors, c.value.rooms).Ok?
    ensures db.Valid()
  {
    if !IsDormitoryAdmin(u, db.dormitories) {
      return Fail(PermissionDenied);
    }
    var choices := StudentCreateChoices(db.State(), u.id);
    if choices.Err? {
      return Fail(choices.error);
    }
    r := CreateStudent(db, u.id, id, form, choices.value.floors, choices.value.rooms);
  }

  /** PaymentCreateAPIView: only a dormitory admin may create, and only for
      a student of that admin's dormitory, so the payment and its student
      are filed under the same dormitory. */
  method PaymentCreateView(db: Database, u: User, student: StudentId, amount: int, validUntil: Option<Date>,
                           status: PaymentStatus, today: Date) returns (r: Outcome<Error>)
    requires db.Valid()
    modifies db
    ensures r.Pass? ==>
              && IsDormitoryAdmin(u, old(db.dormitories))
              && student in old(db.students)
              && var p := Payment(student, old(db.students)[student].dormitory, amount, validUntil, status);
                 && AdminDormitory(old(db.dormitories), u.id) == Ok(p.dormitory)
                 && db.State() == PaymentEffect(old(db.State()), None, p, today)
    ensures r.Fail? ==> db.State() == old(db.State())
    ensures !IsDormitoryAdmin(u, old(db.dormitories)) ==> r == Fail(PermissionDenied)
    ensures var d := DormitoryOr404(old(db.dormitories), u.id);
            r.Pass? <==>
              IsDormitoryAdmin(u, old(db.dormitories)) && d.Ok? && student in VisibleStudents(old(db.students), OwnDormitory(d.value))
    ensures db.Valid()
  {
    if !IsDormitoryAdmin(u, db.dormitories) {
      return Fail(PermissionDenied);
    }
    var dormitory := DormitoryOr404(db.dormitories, u.id);
    if dormitory.Err? {
      return Fail(dormitory.error);
    }
    var choices := VisibleStudents(db.students, OwnDormitory(dormitory.value));
    r := CreatePayment(db, u.id, choices, student, amount, validUntil, status, today);
  }

  /** A payment created through PaymentCreateView is appended to the table,
      filed under its student's dormitory. */
  lemma CreatedPaymentIsAppended(db: Db, p: Payment, today: Date)
    requires p.student in db.students
    ensures var after := PaymentEffect(db, None, p, today);
            && after.payments == db.payments + [p]
            && p.student in after.students
            && after.students[p.student].dormitory == db.students[p.student].dormitory
  {
  }

  // ---------------------------------------------------------------------
  // Deleting a student

  /** StudentDetailAPIView's delete: the view's permission and queryset,
      the delete with its cascade and signal, then the recount
      perform_destroy repeats. A dormitory admin can only reach the
      students of their own dormitory. */
  method DestroyStudent(db: Database, u: User, id: StudentId) returns (r: Outcome<Error>)
    requires db.Valid()
    modifies db
    ensures r.Pass? ==> id in old(db.students) && db.State() == DeleteEffect(old(db.State()), id)
    ensures var scope := ListScope(old(db.dormitories), u);
            r.Pass? <==>
              IsAdminOrDormitoryAdmin(u, old(db.dormitories)) && scope.Ok? && id in VisibleStudents(old(db.students), scope.value)
    ensures r.Pass? && u.role != ROLE_ADMIN ==>
              old(db.students)[id].dormitory in DormitoriesOf(old(db.dormitories), u.id)
    ensures r.Fail? ==> db.State() == old(db.State())
    ensures db.Valid()
  {
    if !IsAdminOrDormitoryAdmin(u, db.dormitories) {
      return Fail(PermissionDenied);
    }
    var scope := ListScope(db.dormitories, u);
    if scope.Err? {
      return Fail(scope.error);
    }
    if id !in VisibleStudents(db.students, scope.value) {
      return Fail(NotFound);
    }
    var room := db.students[id].room;
    db.DeleteStudent(id);
    ghost var settled := db.rooms;
    if room.Some? && room.value in db.rooms {
      RecountIdempotent(settled[room.value], |Occupants(db.students, room.value)|);
    }
    db.UpdateRoomStatus(room);
    assert db.rooms == settled;
    r := Pass;
  }
}
