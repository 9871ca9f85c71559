/** The user record as far as the swap workflow sees it: a points balance and a role. */
module UserModel {

  type UserId = nat

  /** The schema's role enumeration, "user" or "admin". */
  datatype Role = Member | Admin

  /** Balances are plain integers: settlement subtracts without re-checking, so the
      model does not forbid a negative balance. */
  datatype User = User(points: int, role: Role)

  /** Points every new account starts with. */
  const StartingPoints: int := 100

  /** A freshly signed-up account: the schema defaults for `points` and `role`. */
  function NewUser(): (u: User)
    ensures u.points == StartingPoints && u.role == Member
  {
    User(StartingPoints, Member)
  }
}
