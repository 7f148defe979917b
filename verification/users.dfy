/** The User record of backend/models/User.js: role, points balance and the four
    activity counters, with the three ledger methods `updateStats`, `addPoints`
    and `deductPoints`. Identity fields (name, email, password, profile) carry no
    rule of the marketplace and are not modelled. */
module Users {
  import opened Common

  datatype Role = Regular | Admin

  /** The stored string of a role. */
  function RoleName(r: Role): string {
    match r
    case Regular => "user"
    case Admin => "admin"
  }

  /** The role enumeration check: only "user" and "admin" name a role. */
  function ParseRole(s: string): (r: Option<Role>)
    ensures r.Some? ==> RoleName(r.value) == s
    ensures r.None? ==> forall x :: RoleName(x) != s
  {
    if s == "user" then Some(Regular)
    else if s == "admin" then Some(Admin)
    else None
  }

  datatype Stats = Stats(itemsListed: int, swapsCompleted: int, pointsEarned: int, pointsSpent: int)

  /** The names `updateStats` accepts for a counter. */
  datatype StatField = ItemsListed | SwapsCompleted | PointsEarned | PointsSpent

  function StatOf(st: Stats, f: StatField): int {
    match f
    case ItemsListed => st.itemsListed
    case SwapsCompleted => st.swapsCompleted
    case PointsEarned => st.pointsEarned
    case PointsSpent => st.pointsSpent
  }

  datatype User = User(role: Role, points: int, stats: Stats)

  /** The balance of a freshly registered user. */
  const StartingPoints := 50

  /** Every balance change goes through `AddPoints` or `DeductPoints`, so the balance is the
      opening balance plus everything earned minus everything spent. */
  predicate Balanced(u: User) {
    u.points == StartingPoints + u.stats.pointsEarned - u.stats.pointsSpent
  }

  /** The user invariant the marketplace keeps: a non-negative balance, non-negative
      counters, and a balance that agrees with the earned and spent totals. */
  predicate Valid(u: User) {
    && u.points >= 0
    && u.stats.itemsListed >= 0 && u.stats.swapsCompleted >= 0
    && u.stats.pointsEarned >= 0 && u.stats.pointsSpent >= 0
    && Balanced(u)
  }

  /** `v` is `u` with the balance and each counter moved by the given amounts and the role kept. */
  predicate Moved(u: User, v: User, points: int, listed: int, swaps: int, earned: int, spent: int) {
    && v.role == u.role
    && v.points == u.points + points
    && v.stats == Stats(u.stats.itemsListed + listed, u.stats.swapsCompleted + swaps,
                        u.stats.pointsEarned + earned, u.stats.pointsSpent + spent)
  }

  /** A user as the schema defaults create one. */
  function NewUser(): (u: User)
    ensures u.role == Regular && u.points == StartingPoints
    ensures forall f :: StatOf(u.stats, f) == 0
    ensures Valid(u)
  {
    User(Regular, StartingPoints, Stats(0, 0, 0, 0))
  }

  /** `updateStats(field, increment)`: adds `inc` to the one named counter. */
  function UpdateStats(u: User, f: StatField, inc: int): (r: User)
    ensures StatOf(r.stats, f) == StatOf(u.stats, f) + inc
    ensures forall g :: g != f ==> StatOf(r.stats, g) == StatOf(u.stats, g)
    ensures r.points == u.points && r.role == u.role
  {
    var st := u.stats;
    var st' := match f
      case ItemsListed => st.(itemsListed := st.itemsListed + inc)
      case SwapsCompleted => st.(swapsCompleted := st.swapsCompleted + inc)
      case PointsEarned => st.(pointsEarned := st.pointsEarned + inc)
      case PointsSpent => st.(pointsSpent := st.pointsSpent + inc);
    u.(stats := st')
  }

  /** `addPoints(amount)`: an unconditional credit, also counted as earned. */
  function AddPoints(u: User, amount: int): (r: User)
    ensures r.points == u.points + amount
    ensures StatOf(r.stats, PointsEarned) == StatOf(u.stats, PointsEarned) + amount
    ensures forall g :: g != PointsEarned ==> StatOf(r.stats, g) == StatOf(u.stats, g)
    ensures r.role == u.role
    ensures Balanced(u) <==> Balanced(r)
  {
    u.(points := u.points + amount, stats := u.stats.(pointsEarned := u.stats.pointsEarned + amount))
  }

  /** `deductPoints(amount)`: a debit that refuses to overdraw. */
  function DeductPoints(u: User, amount: int): (r: Result<User>)
    ensures r.Err? <==> u.points < amount
    ensures r.Err? ==> r.error == InsufficientPoints(amount, u.points)
    ensures r.Ok? ==> r.value.points == u.points - amount
    ensures r.Ok? ==> StatOf(r.value.stats, PointsSpent) == StatOf(u.stats, PointsSpent) + amount
    ensures r.Ok? ==> forall g :: g != PointsSpent ==> StatOf(r.value.stats, g) == StatOf(u.stats, g)
    ensures r.Ok? ==> r.value.role == u.role
    ensures r.Ok? && u.points >= 0 ==> r.value.points >= 0
    ensures r.Ok? ==> (Balanced(u) <==> Balanced(r.value))
  {
    if u.points < amount then Err(InsufficientPoints(amount, u.points))
    else Ok(u.(points := u.points - amount, stats := u.stats.(pointsSpent := u.stats.pointsSpent + amount)))
  }

  /** A credit followed by a debit of the same amount restores the balance; only the
      earned and spent totals remember the round trip. */
  lemma CreditThenDebit(u: User, amount: int)
    requires u.points >= 0
    ensures DeductPoints(AddPoints(u, amount), amount).Ok?
    ensures DeductPoints(AddPoints(u, amount), amount).value.points == u.points
    ensures DeductPoints(AddPoints(u, amount), amount).value.stats
         == u.stats.(pointsEarned := u.stats.pointsEarned + amount, pointsSpent := u.stats.pointsSpent + amount)
  {
  }

  /** Crediting and debiting non-negative amounts, and bumping a non-ledger counter by a
      non-negative increment, keep a user valid. */
  lemma LedgerPreservesValid(u: User, amount: int, f: StatField, inc: int)
    requires Valid(u) && amount >= 0 && inc >= 0
    requires f == ItemsListed || f == SwapsCompleted
    ensures Valid(AddPoints(u, amount))
    ensures DeductPoints(u, amount).Ok? ==> Valid(DeductPoints(u, amount).value)
    ensures Valid(UpdateStats(u, f, inc))
  {
    var r := UpdateStats(u, f, inc);
    assert StatOf(r.stats, PointsEarned) == StatOf(u.stats, PointsEarned);
    assert StatOf(r.stats, PointsSpent) == StatOf(u.stats, PointsSpent);
    assert StatOf(r.stats, ItemsListed) >= 0 && StatOf(r.stats, SwapsCompleted) >= 0;
  }
}
