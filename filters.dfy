/** StudentFilter, which no view uses in this revision, modelled as it
    would filter the student list. Text filters are case-insensitive
    substring matches in the way SQLite's LIKE compares (only ASCII letters
    are folded), an empty value leaves the list alone, and max_payment
    compares the SQL sum of a student's payments. */
module Filters {
  import opened Wrappers
  import opened Models

  // ---------------------------------------------------------------------
  // Text matching

  /** SQLite's LIKE folds the ASCII letters and nothing else. */
  function AsciiLower(c: char): (r: char)
    ensures 'A' <= c <= 'Z' ==> 'a' <= r <= 'z'
    ensures !('A' <= c <= 'Z') ==> r == c
  {
    if 'A' <= c <= 'Z' then (c as int + 32) as char else c
  }

  function AsciiUpper(c: char): (r: char)
    ensures 'a' <= c <= 'z' ==> 'A' <= r <= 'Z'
    ensures !('a' <= c <= 'z') ==> r == c
  {
    if 'a' <= c <= 'z' then (c as int - 32) as char else c
  }

  /** A letter and its upper-case form fold to the same character. */
  lemma FoldIgnoresCase(c: char)
    ensures AsciiLower(AsciiUpper(c)) == AsciiLower(c)
    ensures AsciiLower(AsciiLower(c)) == AsciiLower(c)
  {
  }

  function Folded(s: string): (r: string)
    ensures |r| == |s| && forall i :: 0 <= i < |s| ==> r[i] == AsciiLower(s[i])
  {
    if s == [] then [] else [AsciiLower(s[0])] + Folded(s[1..])
  }

  function Uppered(s: string): (r: string)
    ensures |r| == |s| && forall i :: 0 <= i < |s| ==> r[i] == AsciiUpper(s[i])
  {
    if s == [] then [] else [AsciiUpper(s[0])] + Uppered(s[1..])
  }

  /** `needle` occurs in `hay` at position `i`. */
  predicate OccursAt(needle: string, hay: string, i: int)
  {
    0 <= i && i + |needle| <= |hay| && hay[i..i + |needle|] == needle
  }

  /** `needle` occurs in `hay` at some position. */
  predicate Occurs(needle: string, hay: string)
  {
    exists i :: 0 <= i <= |hay| && OccursAt(needle, hay, i)
  }

  /** The `icontains` lookup on a nullable text column: NULL never matches. */
  predicate IContains(field: Option<string>, value: string)
  {
    field.Some? && Occurs(Folded(value), Folded(field.value))
  }

  /** Folding an upper-cased string gives the same as folding the string. */
  lemma FoldedUppered(s: string)
    ensures Folded(Uppered(s)) == Folded(s)
  {
    forall i | 0 <= i < |s| ensures Folded(Uppered(s))[i] == Folded(s)[i] {
      FoldIgnoresCase(s[i]);
    }
  }

  /** The match ignores the case of the value looked for. */
  lemma IContainsIgnoresCase(field: Option<string>, value: string)
    ensures IContains(field, Uppered(value)) == IContains(field, value)
    ensures IContains(field, Folded(value)) == IContains(field, value)
  {
    FoldedUppered(value);
    assert Folded(Folded(value)) == Folded(value) by {
      forall i | 0 <= i < |value| ensures Folded(Folded(value))[i] == Folded(value)[i] {
        FoldIgnoresCase(value[i]);
      }
    }
  }

  /** Every substring of a stored text matches, whatever its case. */
  lemma SubstringMatches(field: string, i: nat, j: nat)
    requires i <= j <= |field|
    ensures IContains(Some(field), field[i..j])
    ensures IContains(Some(field), Uppered(field[i..j]))
  {
    var needle := Folded(field[i..j]);
    assert OccursAt(needle, Folded(field), i);
    IContainsIgnoresCase(Some(field), field[i..j]);
  }

  // ---------------------------------------------------------------------
  // max_payment

  function SumAmounts(ps: seq<Payment>): int
  {
    if ps == [] then 0 else ps[0].amount + SumAmounts(ps[1..])
  }

  lemma {:induction false} SumAmountsAppend(a: seq<Payment>, b: seq<Payment>)
    ensures SumAmounts(a + b) == SumAmounts(a) + SumAmounts(b)
  {
    if a == [] {
      assert a + b == b;
    } else {
      assert (a + b)[0] == a[0];
      assert (a + b)[1..] == a[1..] + b;
      SumAmountsAppend(a[1..], b);
    }
  }

  lemma {:induction false} FilterAppend(a: seq<Payment>, b: seq<Payment>, keep: Payment -> bool)
    ensures Filter(a + b, keep) == Filter(a, keep) + Filter(b, keep)
  {
    if a == [] {
      assert a + b == b;
    } else {
      assert (a + b)[0] == a[0];
      assert (a + b)[1..] == a[1..] + b;
      FilterAppend(a[1..], b, keep);
    }
  }

  /** `Sum('payments__amount')`: the sum over the student's payments, or
      NULL when the student has none. */
  function TotalPaid(payments: seq<Payment>, s: StudentId): (r: Option<int>)
    ensures r.None? <==> forall p :: p in payments ==> p.student != s
    ensures r.Some? ==> r.value == SumAmounts(PaymentsOf(payments, s))
  {
    var own := PaymentsOf(payments, s);
    if own == [] then None
    else
      assert own[0] in own;
      Some(SumAmounts(own))
  }

  /** Every payment adds to the total, approved or cancelled alike. */
  lemma TotalCountsEveryStatus(payments: seq<Payment>, p: Payment)
    ensures TotalPaid(payments + [p], p.student) ==
            Some((if TotalPaid(payments, p.student).Some? then TotalPaid(payments, p.student).value else 0) + p.amount)
  {
    var keep := (q: Payment) => q.student == p.student;
    FilterAppend(payments, [p], keep);
    assert Filter([p], keep) == [p];
    SumAmountsAppend(PaymentsOf(payments, p.student), [p]);
    assert p in payments + [p];
    if TotalPaid(payments, p.student).None? {
      assert PaymentsOf(payments, p.student) == [];
    }
  }

  /** filter_max_payment: the students whose total is below `value`; a
      NULL total compares as unknown and drops the student. */
  function FilterMaxPayment(students: set<StudentId>, payments: seq<Payment>, value: int): (r: set<StudentId>)
    ensures r <= students
    ensures forall s :: s in r ==> exists p :: p in payments && p.student == s
  {
    set s | s in students && TotalPaid(payments, s).Some? && TotalPaid(payments, s).value < value
  }

  /** A student without a single payment is never listed, although nothing
      paid is less than any positive bound. */
  lemma MaxPaymentDropsStudentsWithoutPayments()
    ensures var students := {1, 2};
            var payments := [Payment(2, 0, 100, None, Approved)];
            FilterMaxPayment(students, payments, 1000) == {2}
  {
    var payments := [Payment(2, 0, 100, None, Approved)];
    assert payments[0] in payments;
    assert PaymentsOf(payments, 2) == [payments[0]];
    assert TotalPaid(payments, 1).None?;
  }

  /** The filter with a missing total read as zero (`Coalesce(Sum, 0)`). */
  function FilterMaxPaymentCoalesced(students: set<StudentId>, payments: seq<Payment>, value: int): (r: set<StudentId>)
    ensures r <= students
  {
    set s | s in students && SumAmounts(PaymentsOf(payments, s)) < value
  }

  /** The corrected filter keeps exactly the students whose payments add
      up to less than `value`, counting no payments as zero, and agrees
      with filter_max_payment on every student who has paid something. */
  lemma CoalescedFilterSpec(students: set<StudentId>, payments: seq<Payment>, value: int, s: StudentId)
    ensures s in FilterMaxPaymentCoalesced(students, payments, value) <==>
              s in students && (if TotalPaid(payments, s).Some? then TotalPaid(payments, s).value else 0) < value
    ensures (exists p :: p in payments && p.student == s) ==>
              (s in FilterMaxPaymentCoalesced(students, payments, value) <==> s in FilterMaxPayment(students, payments, value))
  {
  }

  // ---------------------------------------------------------------------
  // The whole filter set

  /** A query string: empty text and absent values leave that filter out. */
  datatype StudentQuery = StudentQuery(name: string, lastName: string, floorId: Option<int>,
                                       status: Option<string>, placement: Option<Placement>,
                                       maxPayment: Option<int>)

  /** The field filters one student must pass. */
  predicate PassesFields(st: Student, q: StudentQuery): (r: bool)
    ensures q.name == "" && q.lastName == "" && q.floorId.None? && q.status.None? && q.placement.None? ==> r
    ensures r && q.floorId.Some? ==> st.floor == Some(q.floorId.value)
    ensures r && q.status.Some? ==> st.status == q.status.value
    ensures r && q.placement.Some? ==> st.placement == q.placement.value
  {
    && (q.name == "" || IContains(Some(st.name), q.name))
    && (q.lastName == "" || IContains(st.lastName, q.lastName))
    && (q.floorId.None? || (st.floor.Some? && st.floor.value == q.floorId.value))
    && (q.status.None? || st.status == q.status.value)
    && (q.placement.None? || st.placement == q.placement.value)
  }

  /** The students passing the field filters. */
  function Matching(students: map<StudentId, Student>, q: StudentQuery): (r: set<StudentId>)
    ensures r <= students.Keys
  {
    set s | s in students && PassesFields(students[s], q)
  }

  /** StudentFilter over the student table: a status outside the model's
      choices is refused; otherwise the students passing every given filter,
      max_payment last, where a student without payments has a NULL total
      and is dropped. */
  function FilterStudents(students: map<StudentId, Student>, payments: seq<Payment>, q: StudentQuery)
    : (r: Result<set<StudentId>, Error>)
    ensures r.Err? <==> q.status.Some? && q.status.value !in STATUS_CHOICES
    ensures r.Err? ==> r.error == InvalidChoice
    ensures r.Ok? ==> r.value <= students.Keys
    ensures r.Ok? ==> forall s :: s in r.value ==> PassesFields(students[s], q)
    ensures r.Ok? && q.maxPayment.None? ==>
              forall s :: s in students && PassesFields(students[s], q) ==> s in r.value
    ensures r.Ok? && q.maxPayment.Some? ==>
              forall s :: s in r.value <==>
                && s in students && PassesFields(students[s], q)
                && TotalPaid(payments, s).Some? && TotalPaid(payments, s).value < q.maxPayment.value
  {
    if q.status.Some? && q.status.value !in STATUS_CHOICES then Err(InvalidChoice)
    else
      var matched := Matching(students, q);
      Ok(if q.maxPayment.Some? then FilterMaxPayment(matched, payments, q.maxPayment.value) else matched)
  }

  /** StudentFilter with the corrected max_payment step: a student without
      payments counts as having paid nothing. It refuses exactly what
      StudentFilter refuses, and lists a superset that differs only by
      students without a payment. */
  function FilterStudentsFixed(students: map<StudentId, Student>, payments: seq<Payment>, q: StudentQuery)
    : (r: Result<set<StudentId>, Error>)
    ensures r.Err? <==> FilterStudents(students, payments, q).Err?
    ensures r.Err? ==> r.error == InvalidChoice
    ensures r.Ok? && q.maxPayment.Some? ==>
              forall s :: s in r.value <==>
                s in students && PassesFields(students[s], q) && SumAmounts(PaymentsOf(payments, s)) < q.maxPayment.value
    ensures r.Ok? ==> FilterStudents(students, payments, q).value <= r.value
    ensures r.Ok? ==> forall s :: s in r.value && s !in FilterStudents(students, payments, q).value ==>
                        forall p :: p in payments ==> p.student != s
  {
    if q.status.Some? && q.status.value !in STATUS_CHOICES then Err(InvalidChoice)
    else
      var matched := Matching(students, q);
      Ok(if q.maxPayment.Some? then FilterMaxPaymentCoalesced(matched, payments, q.maxPayment.value) else matched)
  }

  /** The status the migration added cannot be filtered on: the filter's
      choices are the two the model class declares. */
  lemma NotEvaluatedStatusIsRefused(students: map<StudentId, Student>, payments: seq<Payment>, q: StudentQuery)
    requires q.status == Some(TEKSHIRILMAYDI)
    ensures FilterStudents(students, payments, q) == Err(InvalidChoice)
  {
  }
}
