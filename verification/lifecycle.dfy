/** Properties that relate several service calls: the account lifecycle
    (created inactive, activated, authenticated), the reusable loan
    lifecycle of a book, the statistics they move, and the invariant of
    every store reachable by a sequence of requests. */
module Lifecycle {
  import opened Models
  import opened Envelope
  import opened Schemas
  import opened UserService
  import opened LivreService
  import opened StatsService

  // ----- accounts -----

  /** A freshly created account cannot log in, whatever the password. */
  lemma NewAccountIsInactive(db: Db, user: UserCreate, now: int, password: string, later: int)
    requires Valid(db)
    requires CreateUser(db, user, now).Reply? && CreateUser(db, user, now).resp.code == 201
    ensures AuthenticateUser(CreateUser(db, user, now).db, user.email, password, later).code == 403
  {
  }

  /** Once activated, the new account logs in with any password that bcrypt
      cannot tell from the one it was created with (the same first 72 UTF-8
      bytes), and with no other. */
  lemma ActivationEnablesLogin(db: Db, user: UserCreate, now: int, password: string, later: int)
    requires Valid(db)
    requires CreateUser(db, user, now).Reply? && CreateUser(db, user, now).resp.code == 201
    ensures var created := CreateUser(db, user, now).db;
      var activated := ActivateUser(created, db.nextUserId).db;
      var login := AuthenticateUser(activated, user.email, password, later);
      && (login.code == 200 <==> BcryptSecret(password) == BcryptSecret(user.password))
      && (login.code == 401 <==> BcryptSecret(password) != BcryptSecret(user.password))
      && (login.code == 200 ==> login.data.value.user.id == db.nextUserId)
  {
  }

  /** A second creation with the same email is refused and changes nothing. */
  lemma DuplicateEmailRefused(db: Db, first: UserCreate, second: UserCreate, now: int, later: int)
    requires Valid(db)
    requires CreateUser(db, first, now).Reply? && CreateUser(db, first, now).resp.code == 201
    requires second.email == first.email
    ensures var after := CreateUser(db, first, now).db;
      CreateUser(after, second, later) == Reply(after, Response(400, MsgUserExists, None))
  {
  }

  lemma ActivateIdempotent(db: Db, id: int)
    requires Valid(db)
    ensures var once := ActivateUser(db, id).db;
      ActivateUser(once, id).db == once
  {
  }

  lemma DeactivateIdempotent(db: Db, id: int)
    requires Valid(db)
    ensures var once := DeactivateUser(db, id).db;
      DeactivateUser(once, id).db == once
  {
  }

  /** After an account is deleted no remaining book names it as borrower. */
  lemma DeletedAccountHoldsNothing(db: Db, id: int)
    requires Valid(db)
    ensures forall k | k in DeleteUser(db, id).db.livres ::
      DeleteUser(db, id).db.livres[k].userId != Some(id)
  {
  }

  // ----- reads after writes -----

  /** An account just created is found under the next id and under its
      email, exactly as the creation returned it. */
  lemma CreatedUserIsFound(db: Db, user: UserCreate, now: int)
    requires Valid(db)
    requires CreateUser(db, user, now).Reply? && CreateUser(db, user, now).resp.code == 201
    ensures var created := CreateUser(db, user, now);
      && GetUser(created.db, db.nextUserId) == Response(200, MsgUserFound, created.resp.data)
      && GetUserByEmail(created.db, user.email) == Response(200, MsgUserFound, created.resp.data)
  {
  }

  /** An account whose name was shortened below the `UserBase` minimum by
      `update_user` is stored, but no longer reads back as a user response. */
  lemma ShortNameStoredButUnreadable(db: Db, id: int)
    requires Valid(db) && id in db.users
    ensures var updated := UpdateUser(db, id, Some("Al"), None);
      && updated.Reply? && updated.resp.code == 200
      && updated.db.users[id].name == "Al"
      && ToUserResponse(updated.db.users[id]).None?
  {
  }

  /** A book just created is found under the next id, as the creation
      returned it; when its body was validated it reads back as a response
      with neither borrower nor loan time. */
  lemma CreatedLivreIsFound(db: Db, livre: LivreCreate, now: int)
    requires Valid(db)
    requires CreateLivre(db, livre, now).Reply?
    ensures var created := CreateLivre(db, livre, now);
      var found := GetLivre(created.db, db.nextLivreId);
      && found == Response(200, MsgLivreFound, created.resp.data)
      && (ToLivreResponse(found.data.value).Some? <==> ValidLivreBase(livre))
      && (ValidLivreBase(livre) ==>
            ToLivreResponse(found.data.value)
              == Some(LivreResponse(db.nextLivreId, livre.titre, livre.description, livre.isLu, None, None)))
  {
  }

  /** A book whose title was shortened below the `LivreBase` minimum by
      `update_livre` is stored, but no longer reads back as a book response. */
  lemma ShortTitreStoredButUnreadable(db: Db, id: int, now: int)
    requires Valid(db) && id in db.livres
    ensures var updated := UpdateLivre(db, id, Some("ab"), None, None, now);
      && updated.Reply? && updated.resp.code == 200
      && updated.db.livres[id].titre == "ab"
      && ToLivreResponse(updated.db.livres[id]).None?
  {
  }

  /** A book just updated is found as the update returned it. */
  lemma UpdatedLivreIsFound(db: Db, id: int, titre: Option<string>, description: Option<string>,
                            isLu: Option<bool>, now: int)
    requires Valid(db)
    requires UpdateLivre(db, id, titre, description, isLu, now).Reply?
    ensures var updated := UpdateLivre(db, id, titre, description, isLu, now);
      GetLivre(updated.db, id) == (if id in db.livres
        then Response(200, MsgLivreFound, updated.resp.data)
        else Response(404, MsgLivreNotFound, None))
  {
  }

  // ----- loans -----

  /** A book lent to one account cannot be lent again, to that account or
      any other, and the refusal changes nothing. */
  lemma BorrowIsExclusive(db: Db, livreId: int, first: int, second: int, t1: int, t2: int)
    requires Valid(db)
    requires EmprunterLivre(db, livreId, first, t1).Reply?
    requires EmprunterLivre(db, livreId, first, t1).resp.code == 200
    ensures var lent := EmprunterLivre(db, livreId, first, t1).db;
      EmprunterLivre(lent, livreId, second, t2) == Reply(lent, Response(400, MsgNotAvailable, None))
  {
  }

  /** Lend, return, lend again: the return clears both loan columns, and the
      book can then be lent to any existing account. */
  lemma LoanCycleRepeats(db: Db, livreId: int, first: int, second: int, t1: int, t2: int, t3: int)
    requires Valid(db)
    requires EmprunterLivre(db, livreId, first, t1).Reply?
    requires EmprunterLivre(db, livreId, first, t1).resp.code == 200
    ensures var lent := EmprunterLivre(db, livreId, first, t1).db;
      var back := RendreLivre(lent, livreId, t2);
      && back.Reply? && back.resp.code == 200
      && back.db.livres[livreId].userId.None?
      && back.db.livres[livreId].emprunteLe.None?
      && var again := EmprunterLivre(back.db, livreId, second, t3);
      && (again.Reply? && again.resp.code == 200 <==> second in db.users)
  {
  }

  /** A successful loan adds exactly one book to the borrowed count. */
  lemma BorrowCountsOneMore(db: Db, livreId: int, userId: int, now: int)
    requires Valid(db)
    requires EmprunterLivre(db, livreId, userId, now).Reply?
    requires EmprunterLivre(db, livreId, userId, now).resp.code == 200
    ensures var after := EmprunterLivre(db, livreId, userId, now).db;
      && |BorrowedIds(after)| == |BorrowedIds(db)| + 1
      && |after.livres| == |db.livres|
  {
    var after := EmprunterLivre(db, livreId, userId, now).db;
    assert livreId !in BorrowedIds(db);
    assert BorrowedIds(after) == BorrowedIds(db) + {livreId};
    assert after.livres.Keys == db.livres.Keys;
  }

  /** A successful return removes exactly one book from the borrowed count. */
  lemma ReturnCountsOneLess(db: Db, livreId: int, now: int)
    requires Valid(db)
    requires RendreLivre(db, livreId, now).resp.code == 200
    ensures var after := RendreLivre(db, livreId, now).db;
      && |BorrowedIds(after)| == |BorrowedIds(db)| - 1
      && |after.livres| == |db.livres|
  {
    var after := RendreLivre(db, livreId, now).db;
    assert livreId in BorrowedIds(db);
    assert BorrowedIds(after) == BorrowedIds(db) - {livreId};
    assert after.livres.Keys == db.livres.Keys;
  }

  // ----- reachable states -----

  /** Every request that may write to the store, with the time it is served. */
  datatype Request =
    | CreateUserReq(user: UserCreate, at: int)
    | UpdateUserReq(userId: int, newName: Option<string>, newEmail: Option<string>)
    | DeleteUserReq(userId: int)
    | ResetPasswordReq(email: string, newPassword: string)
    | ActivateUserReq(userId: int)
    | DeactivateUserReq(userId: int)
    | CreateLivreReq(livre: LivreCreate, at: int)
    | UpdateLivreReq(livreId: int, newTitre: Option<string>, newDescription: Option<string>, newIsLu: Option<bool>, at: int)
    | DeleteLivreReq(livreId: int)
    | EmprunterReq(livreId: int, userId: int, at: int)
    | RendreReq(livreId: int, at: int)

  /** The store after serving one request. */
  function Serve(db: Db, req: Request): (after: Db)
    requires Valid(db)
    ensures Valid(after)
  {
    match req
    case CreateUserReq(u, at) => CreateUser(db, u, at).db
    case UpdateUserReq(id, name, email) => UpdateUser(db, id, name, email).db
    case DeleteUserReq(id) => DeleteUser(db, id).db
    case ResetPasswordReq(email, p) => ResetPassword(db, email, p).db
    case ActivateUserReq(id) => ActivateUser(db, id).db
    case DeactivateUserReq(id) => DeactivateUser(db, id).db
    case CreateLivreReq(l, at) => CreateLivre(db, l, at).db
    case UpdateLivreReq(id, titre, d, isLu, at) => UpdateLivre(db, id, titre, d, isLu, at).db
    case DeleteLivreReq(id) => DeleteLivre(db, id).db
    case EmprunterReq(id, uid, at) => EmprunterLivre(db, id, uid, at).db
    case RendreReq(id, at) => RendreLivre(db, id, at).db
  }

  /** The store after serving a sequence of requests one at a time. */
  function ServeAll(db: Db, reqs: seq<Request>): (after: Db)
    requires Valid(db)
    ensures Valid(after)
    decreases |reqs|
  {
    if |reqs| == 0 then db else ServeAll(Serve(db, reqs[0]), reqs[1..])
  }

  /** Every store reachable from the empty database keeps emails unique,
      borrowers existing, and the loan columns in step. */
  lemma ReachableStoresValid(reqs: seq<Request>)
    ensures var db := ServeAll(EmptyDb, reqs);
      && EmailsUnique(db.users)
      && BorrowersExist(db)
      && LoansConsistent(db)
  {
  }

  // ----- a worked scenario -----

  /** A new book "Le Petit Prince" without description is unread and free;
      account 7 borrows it; account 9 is refused; it is returned; account 9
      then borrows it. */
  lemma PetitPrinceScenario(users: map<int, User>, t0: int, t1: int, t2: int, t3: int, t4: int)
    requires 7 in users && 9 in users
    requires Valid(Db(users, map[], 10, 1))
    ensures var db := Db(users, map[], 10, 1);
      var created := CreateLivre(db, LivreBaseWithDefaults("Le Petit Prince"), t0);
      var id := 1;
      && created.Reply? && created.resp.code == 201
      && created.db.livres[id].userId.None? && !created.db.livres[id].isLu
      && var lent := EmprunterLivre(created.db, id, 7, t1);
      && lent.resp.code == 200 && lent.db.livres[id].userId == Some(7)
      && lent.db.livres[id].emprunteLe == Some(t1)
      && var refused := EmprunterLivre(lent.db, id, 9, t2);
      && refused.resp.code == 400 && refused.db == lent.db
      && var back := RendreLivre(refused.db, id, t3);
      && back.resp.code == 200 && back.db.livres[id].userId.None?
      && back.db.livres[id].emprunteLe.None?
      && var again := EmprunterLivre(back.db, id, 9, t4);
      && again.resp.code == 200 && again.db.livres[id].userId == Some(9)
  {
  }
}
