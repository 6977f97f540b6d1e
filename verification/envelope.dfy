/** What every service shares: the `{code, message, data}` response
    envelope, the outcome of a transition on the store, the commit that
    ends a writing transition, the access token, and the id-ordered
    listing of a table. */
module Envelope {
  import opened Models

  datatype Response<T> = Response(code: int, message: string, data: Option<T>)

  /** The result of a service call that may write: either the service
      returned a response (after committing its writes, if any), or the
      commit raised a database error and the transaction was rolled back,
      leaving `db` as it was. */
  datatype Step<T> = Reply(db: Db, resp: Response<T>) | CommitFailed(db: Db)

  /** Commits `after` in place of `before`; the database refuses a state
      that breaks one of its constraints and the rollback restores `before`.
      A commit never breaks the store invariant when the service itself
      keeps the ids and the loan columns in order. */
  function Commit<T>(before: Db, after: Db, resp: Response<T>): (r: Step<T>)
    ensures r.Reply? <==> Constraints(after)
    ensures r.Reply? ==> r.db == after && r.resp == resp
    ensures r.CommitFailed? ==> r.db == before
    ensures Valid(before) && IdsAssigned(after) && LoansConsistent(after) ==> Valid(r.db)
  {
    if Constraints(after) then Reply(after, resp) else CommitFailed(before)
  }

  /** An optional string argument counts as given only when it is truthy:
      neither absent nor empty. */
  predicate Supplied(s: Option<string>) {
    s.Some? && s.value != ""
  }

  const AccessTokenExpireMinutes := 30

  /** The claims of a signed JWT; the HS256 signature over them, and the
      secret key, are not modelled. Times are in seconds. */
  datatype Token = Jwt(sub: string, exp: int)

  /** `expiresDelta` is the optional lifetime in seconds; a missing or zero
      lifetime (both falsy) falls back to the default. */
  function CreateAccessToken(sub: string, expiresDelta: Option<int>, now: int): (t: Token)
    ensures t.sub == sub
    ensures expiresDelta in {None, Some(0)} ==> t.exp == now + AccessTokenExpireMinutes * 60
    ensures expiresDelta.Some? && expiresDelta.value != 0 ==> t.exp == now + expiresDelta.value
  {
    var lifetime := if expiresDelta.Some? && expiresDelta.value != 0
      then expiresDelta.value else AccessTokenExpireMinutes * 60;
    Jwt(sub, now + lifetime)
  }

  /** The primary keys of a table in ascending order: the order in which
      `query(...).all()` is modelled to return rows. */
  method OrderedKeys<T>(m: map<int, T>, lo: int, hi: int) returns (ids: seq<int>)
    requires lo <= hi
    requires forall k | k in m :: lo <= k < hi
    ensures forall i | 0 <= i < |ids| :: ids[i] in m
    ensures forall k | k in m :: k in ids
    ensures forall i, j | 0 <= i < j < |ids| :: ids[i] < ids[j]
  {
    ids := [];
    var n := lo;
    while n < hi
      invariant lo <= n <= hi
      invariant forall i | 0 <= i < |ids| :: ids[i] in m && lo <= ids[i] < n
      invariant forall k | k in m && k < n :: k in ids
      invariant forall i, j | 0 <= i < j < |ids| :: ids[i] < ids[j]
    {
      if n in m {
        ids := ids + [n];
      }
      n := n + 1;
    }
  }
}
