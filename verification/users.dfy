/** The account whose data is migrated: a UUID and a display name, equal to
    another user exactly when the UUIDs are equal. */
module Users {

  /** `java.util.UUID`, compared by its two 64-bit halves. */
  datatype Uuid = Uuid(mostSignificantBits: bv64, leastSignificantBits: bv64)

  /** The constructor stores both fields unchanged; there is nothing else. */
  datatype User = User(uuid: Uuid, username: string)

  /** The argument of `equals(Object)`: another user, or any other reference
      (including null). */
  datatype JavaObject = UserObject(user: User) | OtherObject

  /** `User.equals`: another user is equal when its UUID is; anything else
      falls back to reference identity, which a non-user can never share
      with a user. */
  function Equals(self: User, other: JavaObject): (r: bool)
    ensures r <==> other.UserObject? && other.user.uuid == self.uuid
    ensures other.OtherObject? ==> !r
  {
    match other
    case UserObject(u) => self.uuid == u.uuid
    case OtherObject => false
  }

  /** Equality between two users, as `a.equals(b)` decides it. */
  predicate SameUser(a: User, b: User) {
    Equals(a, UserObject(b))
  }

  /** Usernames play no part in equality. */
  lemma EqualsIgnoresUsername(id: Uuid, name1: string, name2: string)
    ensures SameUser(User(id, name1), User(id, name2))
  {
  }

  /** User equality is reflexive, symmetric and transitive. */
  lemma SameUserIsEquivalence(a: User, b: User, c: User)
    ensures SameUser(a, a)
    ensures SameUser(a, b) <==> SameUser(b, a)
    ensures SameUser(a, b) && SameUser(b, c) ==> SameUser(a, c)
  {
  }
}
