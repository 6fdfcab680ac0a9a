/** Record shapes and defaults of the dormitory models, and the few queryset
    operations (count, filter, order_by(...).first(), get) the core relies on,
    over abstract tables: maps from primary keys to records, and a sequence for
    the payments table. */
module Models {
  import opened Wrappers

  type UserId = nat
  type DormId = nat
  /** Floors, rooms and students have auto-increment keys, which start at
      1: the handlers' `if instance.pk:` treats a key as present exactly
      when it is positive. */
  type FloorId = x: nat | x > 0 witness 1
  type RoomId = x: nat | x > 0 witness 1
  type StudentId = x: nat | x > 0 witness 1

  /** A calendar date, as a day number. */
  type Date = int

  const ROLE_ADMIN: string := "admin"
  const ROLE_STUDENT: string := "student"

  /** `role` is a CharField with the choices 'student' and 'admin'; any
      other role a request names is refused by the field before a
      serializer's own validation runs. */
  datatype User = User(id: UserId, authenticated: bool, superuser: bool, role: string)

  datatype Dormitory = Dormitory(name: string, admin: UserId, rating: Option<int>)

  datatype Gender = Female | Male

  datatype Floor = Floor(name: string, dormitory: DormId, gender: Gender)

  datatype RoomStatus = Available | PartiallyOccupied | FullyOccupied

  datatype Room = Room(name: string, floor: FloorId, capacity: int, currentOccupancy: int,
                       gender: Gender, status: RoomStatus)

  /** The placement_status field: an application received, or the student placed. */
  datatype Placement = QabulQilindi | Joylashdi

  /** Student.status is a CharField; these are the labels of its choices. */
  const QARZDOR: string := "Qarzdor"
  const HAQDOR: string := "Haqdor"
  const TEKSHIRILMAYDI: string := "Tekshirilmaydi"

  /** The choices declared on the model, and the three-valued list of the
      migration that added the "not evaluated" label. */
  const STATUS_CHOICES: set<string> := {QARZDOR, HAQDOR}
  const MIGRATED_STATUS_CHOICES: set<string> := {QARZDOR, HAQDOR, TEKSHIRILMAYDI}

  datatype Student = Student(user: Option<UserId>, name: string, lastName: Option<string>,
                             dormitory: DormId, floor: Option<FloorId>, room: Option<RoomId>,
                             placement: Placement, status: string)

  datatype PaymentStatus = Approved | Cancelled

  datatype Payment = Payment(student: StudentId, dormitory: DormId, amount: int,
                             validUntil: Option<Date>, status: PaymentStatus)

  datatype Application = Application(user: Option<UserId>, dormitory: DormId, room: RoomId)

  /** Why a request is turned down. */
  datatype Error =
    | InvalidPk            // a related-field value outside the field's queryset
    | RoomFull
    | NoDormitory          // Dormitory.DoesNotExist
    | MultipleDormitories  // Dormitory.MultipleObjectsReturned
    | DormitoryTaken
    | ForeignDormitory
    | DuplicateName
    | PermissionDenied
    | NotFound
    | RatingOutOfRange
    | CompareWithNull      // Python refuses `None < date`
    | InvalidChoice        // a filter value outside the filter's choices

  /** A room as the ORM creates it: no occupants, AVAILABLE. */
  function NewRoom(name: string, floor: FloorId, capacity: int, gender: Gender): (r: Room)
    ensures r.currentOccupancy == 0 && r.status == Available
    ensures r.name == name && r.floor == floor && r.capacity == capacity && r.gender == gender
  {
    Room(name, floor, capacity, 0, gender, Available)
  }

  /** A student as the ORM creates it: debt status 'Qarzdor' until a payment says otherwise. */
  function NewStudent(user: Option<UserId>, name: string, lastName: Option<string>, dormitory: DormId,
                      floor: Option<FloorId>, room: Option<RoomId>, placement: Placement): (s: Student)
    ensures s.status == QARZDOR && s.status in STATUS_CHOICES
    ensures s.dormitory == dormitory && s.floor == floor && s.room == room && s.placement == placement
  {
    Student(user, name, lastName, dormitory, floor, room, placement, QARZDOR)
  }

  /** The validators on Dormitory.rating: empty, or between 1 and 5. */
  function ValidateRating(rating: Option<int>): (r: Result<Option<int>, Error>)
    ensures r.Ok? <==> rating.None? || 1 <= rating.value <= 5
    ensures r.Ok? ==> r.value == rating
    ensures r.Err? ==> r.error == RatingOutOfRange
  {
    match rating
    case None => Ok(None)
    case Some(v) => if v < 1 || 5 < v then Err(RatingOutOfRange) else Ok(rating)
  }

  // ---------------------------------------------------------------------
  // Queryset operations

  /** `room.students`: the students whose room is `r`. */
  function Occupants(students: map<StudentId, Student>, r: RoomId): (o: set<StudentId>)
    ensures o <= students.Keys
  {
    set s | s in students && students[s].room == Some(r)
  }

  /** `queryset.filter(...)` over the payments table, kept in primary-key order. */
  function Filter(xs: seq<Payment>, keep: Payment -> bool): (r: seq<Payment>)
    ensures |r| <= |xs|
    ensures forall x :: x in r <==> x in xs && keep(x)
  {
    if xs == [] then []
    else (if keep(xs[0]) then [xs[0]] else []) + Filter(xs[1..], keep)
  }

  /** `student.payments`. */
  function PaymentsOf(payments: seq<Payment>, s: StudentId): (r: seq<Payment>)
    ensures forall p :: p in r <==> p in payments && p.student == s
  {
    Filter(payments, (p: Payment) => p.student == s)
  }

  predicate IsApproved(p: Payment)
  {
    p.status == Approved
  }

  /** `payments.filter(status='APPROVED')`. */
  function ApprovedOnly(payments: seq<Payment>): (r: seq<Payment>)
    ensures forall p :: p in r <==> p in payments && p.status == Approved
  {
    Filter(payments, IsApproved)
  }

  /** Whether `a` comes before `b` in `order_by('-valid_until')` on SQLite,
      where NULL sorts after every date in descending order. */
  predicate SortsFirst(a: Payment, b: Payment)
  {
    a.validUntil.Some? && (b.validUntil.None? || a.validUntil.value >= b.validUntil.value)
  }

  /** `order_by('-valid_until').first()`: a payment with the greatest
      valid_until, or one without a date when none of them has one. */
  function LatestByValidUntil(ps: seq<Payment>): (r: Option<Payment>)
    ensures r.None? <==> ps == []
    ensures r.Some? ==> r.value in ps
    ensures r.Some? && r.value.validUntil.Some? ==>
              forall p :: p in ps && p.validUntil.Some? ==> p.validUntil.value <= r.value.validUntil.value
    ensures r.Some? && r.value.validUntil.None? ==> forall p :: p in ps ==> p.validUntil.None?
  {
    if ps == [] then None
    else
      var rest := LatestByValidUntil(ps[1..]);
      if rest.None? || SortsFirst(ps[0], rest.value) then Some(ps[0]) else rest
  }

  /** The dormitories `u` administers. */
  function DormitoriesOf(dorms: map<DormId, Dormitory>, u: UserId): set<DormId>
  {
    set d | d in dorms && dorms[d].admin == u
  }

  lemma SingletonHasOneElement<T>(s: set<T>, x: T)
    requires |s| == 1 && x in s
    ensures s == {x}
  {
    assert s == (s - {x}) + {x};
    assert |s - {x}| == 0;
  }

  /** `Dormitory.objects.get(admin=u)`. */
  function AdminDormitory(dorms: map<DormId, Dormitory>, u: UserId): (r: Result<DormId, Error>)
    ensures r.Ok? <==> |DormitoriesOf(dorms, u)| == 1
    ensures r.Ok? ==> DormitoriesOf(dorms, u) == {r.value}
    ensures r.Err? ==> r.error == if DormitoriesOf(dorms, u) == {} then NoDormitory else MultipleDormitories
  {
    var ds := DormitoriesOf(dorms, u);
    if |ds| == 0 then Err(NoDormitory)
    else if |ds| > 1 then Err(MultipleDormitories)
    else
      var d :| d in ds;
      SingletonHasOneElement(ds, d);
      Ok(d)
  }

  // ---------------------------------------------------------------------
  // Student.check_and_update_debt, the older debt rule

  /** The labels check_and_update_debt writes: lower-case, unlike the field's choices. */
  const LEGACY_QARZDOR: string := "qarzdor"
  const LEGACY_HAQDOR: string := "haqdor"

  /** The label check_and_update_debt derives from the payments of a
      student, whatever their status: the one with the greatest valid_until
      decides. When no payment has a date, the top one has none, and the
      comparison with today fails. */
  function LegacyDebtLabel(payments: seq<Payment>, today: Date): (r: Result<string, Error>)
    ensures r.Err? <==> payments != [] && forall p :: p in payments ==> p.validUntil.None?
    ensures r.Err? ==> r.error == CompareWithNull
    ensures r == Ok(LEGACY_HAQDOR) <==>
              exists p :: p in payments && p.validUntil.Some? && p.validUntil.value >= today
    ensures r.Ok? ==> r.value == LEGACY_QARZDOR || r.value == LEGACY_HAQDOR
  {
    var last := LatestByValidUntil(payments);
    if last.None? then Ok(LEGACY_QARZDOR)
    else if last.value.validUntil.None? then Err(CompareWithNull)
    else if last.value.validUntil.value < today then Ok(LEGACY_QARZDOR)
    else Ok(LEGACY_HAQDOR)
  }

  /** check_and_update_debt on one student record: the record with its new
      label, and whether save() was called (only when the label changed). */
  method CheckAndUpdateDebt(student: Student, payments: seq<Payment>, today: Date)
    returns (r: Result<Student, Error>, saved: bool)
    ensures r.Err? <==> LegacyDebtLabel(payments, today).Err?
    ensures r.Ok? ==> r.value == student.(status := LegacyDebtLabel(payments, today).value)
    ensures saved <==> r.Ok? && student.status != r.value.status
  {
    var last := LatestByValidUntil(payments);
    var current := student;
    saved := false;
    if last.None? || (last.value.validUntil.Some? && last.value.validUntil.value < today) {
      if current.status != LEGACY_QARZDOR {
        current := current.(status := LEGACY_QARZDOR);
        saved := true;
      }
    } else if last.value.validUntil.None? {
      return Err(CompareWithNull), false;
    } else {
      if current.status != LEGACY_HAQDOR {
        current := current.(status := LEGACY_HAQDOR);
        saved := true;
      }
    }
    r := Ok(current);
  }

  /** Neither label check_and_update_debt writes is one of the field's choices. */
  lemma LegacyLabelsOutsideChoices(payments: seq<Payment>, today: Date)
    ensures LegacyDebtLabel(payments, today).Ok? ==>
              LegacyDebtLabel(payments, today).value !in MIGRATED_STATUS_CHOICES
  {
  }
}
