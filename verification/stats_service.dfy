/** The read-only statistics (`StatsService.get_stats`). */
module StatsService {
  import opened Models
  import opened Envelope

  const MsgStats := "Statistiques récupérées avec succès."

  /** The borrow rate: the literal 0 when there are no books, otherwise
      `borrowed / total * 100` rounded to two decimals, which is kept here as
      the exact ratio. */
  datatype BorrowRate = Zero | Percentage(borrowed: nat, total: nat)

  datatype Stats = Stats(totalUsers: nat, totalBooks: nat, booksBorrowed: nat, borrowRate: BorrowRate)

  /** The ids matched by the filter `user_id IS NOT NULL`. */
  function BorrowedIds(db: Db): (s: set<int>)
    ensures s <= db.livres.Keys
    ensures forall k | k in db.livres :: k in s <==> IsBorrowed(db.livres[k])
  {
    set k | k in db.livres && IsBorrowed(db.livres[k])
  }

  /** A subset is no larger than the set that contains it. */
  lemma SubsetNoLarger(a: set<int>, b: set<int>)
    requires a <= b
    ensures |a| <= |b|
  {
    assert b == a + (b - a);
  }

  function GetStats(db: Db): (r: Response<Stats>)
    ensures r.code == 200 && r.data.Some?
    ensures r.data.value.totalUsers == |db.users|
    ensures r.data.value.totalBooks == |db.livres|
    ensures r.data.value.booksBorrowed == |BorrowedIds(db)|
    ensures r.data.value.booksBorrowed <= r.data.value.totalBooks
    ensures r.data.value.borrowRate == Zero <==> r.data.value.totalBooks == 0
    ensures r.data.value.borrowRate.Percentage? ==>
      && r.data.value.borrowRate.borrowed == r.data.value.booksBorrowed
      && r.data.value.borrowRate.total == r.data.value.totalBooks
  {
    var borrowed := BorrowedIds(db);
    SubsetNoLarger(borrowed, db.livres.Keys);
    var total := |db.livres|;
    Response(200, MsgStats, Some(Stats(
      |db.users|, total, |borrowed|,
      if total > 0 then Percentage(|borrowed|, total) else Zero)))
  }
}
