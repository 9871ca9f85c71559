/** The points ledger: the sum of all balances, and the `$inc` updates settlement makes. */
module Ledger {
  import opened UserModel

  /** The total number of points held by all users. */
  ghost function Total(users: map<UserId, User>): int
    decreases |users|
  {
    if users == map[] then 0
    else
      var k :| k in users;
      users[k].points + Total(users - {k})
  }

  /** The total splits as any one balance plus the total of the others. */
  lemma {:induction false} TotalWithout(users: map<UserId, User>, k: UserId)
    requires k in users
    ensures Total(users) == users[k].points + Total(users - {k})
    decreases |users|
  {
    var j :| j in users && Total(users) == users[j].points + Total(users - {j});
    if j != k {
      TotalWithout(users - {j}, k);
      TotalWithout(users - {k}, j);
      assert users - {j} - {k} == users - {k} - {j};
    }
  }

  /** Replacing one balance changes the total by exactly the difference. */
  lemma TotalAfterUpdate(users: map<UserId, User>, k: UserId, u: User)
    requires k in users
    ensures Total(users[k := u]) == Total(users) - users[k].points + u.points
  {
    TotalWithout(users, k);
    TotalWithout(users[k := u], k);
    assert users[k := u] - {k} == users - {k};
  }

  /** `findByIdAndUpdate(id, { $inc: { points: delta } })`: a missing id updates nothing. */
  function AddPoints(users: map<UserId, User>, id: UserId, delta: int): (r: map<UserId, User>)
    ensures r.Keys == users.Keys
    ensures id in users ==> r[id] == users[id].(points := users[id].points + delta)
    ensures forall k | k in users && k != id :: r[k] == users[k]
  {
    if id in users then users[id := users[id].(points := users[id].points + delta)] else users
  }

  /** Debiting one registered user and crediting another by the same amount leaves
      the total unchanged. */
  lemma TransferConserves(users: map<UserId, User>, from: UserId, to: UserId, amount: int)
    requires from in users && to in users
    ensures Total(AddPoints(AddPoints(users, from, -amount), to, amount)) == Total(users)
  {
    var debited := AddPoints(users, from, -amount);
    TotalAfterUpdate(users, from, users[from].(points := users[from].points - amount));
    TotalAfterUpdate(debited, to, debited[to].(points := debited[to].points + amount));
  }
}
