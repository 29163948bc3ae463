/** The requesting identity and the role values of the user model. */
module Accounts {

  type Role = string

  /** The two role choices of the user model. */
  const EDITOR: Role := "EDITOR"
  const SUBSCRIBER: Role := "SUBSCRIBER"

  /** Not among the choices of the user model, yet accepted by IsAdminOrEditor. */
  const ADMIN: Role := "ADMIN"

  /** Who makes a request: nobody signed in, or a user with its staff flag and role. */
  datatype Actor = Anonymous | Member(id: nat, isStaff: bool, role: Role) {

    predicate IsAuthenticated() { Member? }

    /** `user.is_staff`; the anonymous user is never staff. */
    predicate IsStaff() { Member? && isStaff }
  }
}
