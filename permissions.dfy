/** The permission classes: each is a condition on the requesting user and
    the stored dormitories or students. Every one of them first asks that
    the user be authenticated. */
module Permissions {
  import opened Wrappers
  import opened Models

  /** IsStudent: an authenticated user with a student record. */
  predicate IsStudent(u: User, students: map<StudentId, Student>): (r: bool)
    ensures r ==> u.authenticated && students != map[]
  {
    u.authenticated && exists s :: s in students && students[s].user == Some(u.id)
  }

  /** IsAdmin: an authenticated superuser. The role field plays no part. */
  predicate IsAdmin(u: User): (r: bool)
    ensures r ==> u.authenticated && u.superuser
  {
    u.authenticated && u.superuser
  }

  /** IsDormitoryAdmin: an authenticated user who administers a dormitory. */
  predicate IsDormitoryAdmin(u: User, dorms: map<DormId, Dormitory>): (r: bool)
    ensures r ==> u.authenticated && dorms != map[]
  {
    u.authenticated && DormitoriesOf(dorms, u.id) != {}
  }

  /** IsOwnerOrIsAdmin, on a dormitory object. */
  predicate IsOwnerOrIsAdmin(u: User, obj: Dormitory): (r: bool)
    ensures r ==> u.authenticated
    ensures u.authenticated && (u.superuser || obj.admin == u.id) ==> r
  {
    u.authenticated && (u.superuser || obj.admin == u.id)
  }

  /** IsAdminOrDormitoryAdmin. */
  predicate IsAdminOrDormitoryAdmin(u: User, dorms: map<DormId, Dormitory>): (r: bool)
    ensures r ==> u.authenticated
    ensures u.authenticated && u.superuser ==> r
  {
    IsAdmin(u) || IsDormitoryAdmin(u, dorms)
  }

  /** A dormitory admin is a user named as the admin of some stored
      dormitory, and that user passes the object check on it. */
  lemma DormitoryAdminCharacterized(u: User, dorms: map<DormId, Dormitory>)
    ensures IsDormitoryAdmin(u, dorms) <==> u.authenticated && exists d :: d in dorms && dorms[d].admin == u.id
    ensures forall d :: d in dorms && dorms[d].admin == u.id ==> (IsOwnerOrIsAdmin(u, dorms[d]) <==> u.authenticated)
  {
    if d :| d in dorms && dorms[d].admin == u.id {
      assert d in DormitoriesOf(dorms, u.id);
    }
  }

  /** Anyone passing the object check on a stored dormitory passes the
      combined admin check too. */
  lemma OwnerIsAdminOrDormitoryAdmin(u: User, dorms: map<DormId, Dormitory>, d: DormId)
    requires d in dorms && IsOwnerOrIsAdmin(u, dorms[d])
    ensures IsAdminOrDormitoryAdmin(u, dorms)
  {
    if !u.superuser {
      assert d in DormitoriesOf(dorms, u.id);
    }
  }

  /** An anonymous user fails every permission check. */
  lemma AnonymousFailsEveryCheck(u: User, dorms: map<DormId, Dormitory>, students: map<StudentId, Student>, obj: Dormitory)
    requires !u.authenticated
    ensures !IsStudent(u, students) && !IsAdmin(u) && !IsDormitoryAdmin(u, dorms)
    ensures !IsOwnerOrIsAdmin(u, obj) && !IsAdminOrDormitoryAdmin(u, dorms)
  {
  }

  /** The role field and the superuser flag are independent: a user with
      role 'admin' who is neither a superuser nor the admin of a dormitory
      fails IsAdminOrDormitoryAdmin. */
  lemma AdminRoleIsNotAdminPermission()
    ensures var u := User(1, true, false, ROLE_ADMIN);
            !IsAdmin(u) && !IsAdminOrDormitoryAdmin(u, map[])
  {
  }
}
