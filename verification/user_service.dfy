/** The account operations (`UserService`): each is a transition of the
    store that also yields a response envelope. Operations that only read
    return the envelope alone. */
module UserService {
  import opened Models
  import opened Envelope
  import opened Schemas

  const MsgUserExists := "L'utilisateur existe déjà."
  const MsgUserCreated := "Utilisateur créé avec succès."
  const MsgUserNotFound := "Utilisateur non trouvé."
  const MsgInactive := "Compte inactif. Contactez un administrateur."
  const MsgBadPassword := "Mot de passe incorrect."
  const MsgAuthenticated := "Authentification réussie."
  const MsgUserFound := "Utilisateur trouvé."
  const MsgUserList := "Liste des utilisateurs."
  const MsgUserUpdated := "Utilisateur mis à jour."
  const MsgUserDeleted := "Utilisateur supprimé."
  const MsgPasswordReset := "Mot de passe réinitialisé avec succès."
  const MsgActivated := "Utilisateur activé avec succès."
  const MsgDeactivated := "Utilisateur désactivé avec succès."

  /** The lowest id in [from, hi) whose account has `email`: an equality
      filter on `users.email` followed by `.first()`. */
  function FirstWithEmail(users: map<int, User>, email: string, from: int, hi: int): (r: Option<int>)
    decreases hi - from
    ensures r.Some? ==> from <= r.value < hi && r.value in users && users[r.value].email == email
    ensures r.Some? ==> forall k | k in users && from <= k < r.value :: users[k].email != email
    ensures r.None? <==> forall k | k in users && from <= k < hi :: users[k].email != email
  {
    if hi <= from then None
    else if from in users && users[from].email == email then Some(from)
    else FirstWithEmail(users, email, from + 1, hi)
  }

  /** The id of the account registered under `email`, if any. */
  function FindByEmail(db: Db, email: string): (r: Option<int>)
    requires Valid(db)
    ensures r.Some? <==> EmailTaken(db.users, email)
    ensures forall k | k in db.users && db.users[k].email == email :: r == Some(k)
  {
    FirstWithEmail(db.users, email, 1, db.nextUserId)
  }

  /** `create_user`: refuses an email already registered; otherwise stores
      an inactive account holding the hash of the password. */
  function CreateUser(db: Db, user: UserCreate, now: int): (r: Step<User>)
    requires Valid(db)
    ensures Valid(r.db)
    ensures EmailTaken(db.users, user.email) ==> r == Reply(db, Response(400, MsgUserExists, None))
    ensures !EmailTaken(db.users, user.email) ==>
      (r.Reply? <==> |user.name| <= NameColumnWidth && |user.email| <= EmailColumnWidth)
    ensures ValidUserCreate(user) && |user.email| <= EmailColumnWidth ==> r.Reply?
    ensures r.CommitFailed? ==> r.db == db
    ensures r.db.nextLivreId == db.nextLivreId
    ensures r.db.nextUserId == if r.Reply? && r.resp.code == 201 then db.nextUserId + 1 else db.nextUserId
    ensures !EmailTaken(db.users, user.email) && r.Reply? ==>
      var id := db.nextUserId;
      && id !in db.users
      && r.db.users.Keys == db.users.Keys + {id}
      && (forall k | k in db.users :: r.db.users[k] == db.users[k])
      && r.db.livres == db.livres
      && r.db.users[id] == User(id, user.name, user.email, Hash(user.password), false, now)
      && r.resp == Response(201, MsgUserCreated, Some(r.db.users[id]))
  {
    if FindByEmail(db, user.email).Some? then
      Reply(db, Response(400, MsgUserExists, None))
    else
      var id := db.nextUserId;
      var created := User(id, user.name, user.email, Hash(user.password), false, now);
      var after := db.(users := db.users[id := created], nextUserId := id + 1);
      assert EmailsUnique(after.users);
      assert BorrowersExist(after);
      assert after.users[id] == created;
      assert Constraints(after) <==> UserFitsColumns(created);
      Commit(db, after, Response(201, MsgUserCreated, Some(created)))
  }

  /** What a successful login returns. */
  datatype Session = Session(user: User, token: Token)

  /** `authenticate_user`: unknown email, then inactive account, then
      wrong password, are refused in that order. It never writes. */
  function AuthenticateUser(db: Db, email: string, password: string, now: int): (r: Response<Session>)
    requires Valid(db)
    ensures r.code == 404 <==> !EmailTaken(db.users, email)
    ensures r.code == 403 <==>
      exists k | k in db.users :: db.users[k].email == email && !db.users[k].isActive
    ensures r.code == 401 <==>
      exists k | k in db.users ::
        db.users[k].email == email && db.users[k].isActive && !Verify(password, db.users[k].password)
    ensures r.code == 200 <==>
      exists k | k in db.users ::
        db.users[k].email == email && db.users[k].isActive && Verify(password, db.users[k].password)
    ensures r.code != 200 ==> r.data.None?
    ensures r.code == 200 ==>
      && r.data.Some?
      && r.data.value.user.id in db.users
      && db.users[r.data.value.user.id] == r.data.value.user
      && r.data.value.user.email == email
      && r.data.value.token == Jwt(email, now + AccessTokenExpireMinutes * 60)
  {
    match FindByEmail(db, email)
    case None => Response(404, MsgUserNotFound, None)
    case Some(id) =>
      var user := db.users[id];
      if !user.isActive then
        Response(403, MsgInactive, None)
      else if !Verify(password, user.password) then
        Response(401, MsgBadPassword, None)
      else
        Response(200, MsgAuthenticated, Some(Session(user, CreateAccessToken(user.email, None, now))))
  }

  /** `get_user`. */
  function GetUser(db: Db, id: int): (r: Response<User>)
    ensures r.code == 200 <==> id in db.users
    ensures id in db.users ==> r.data == Some(db.users[id])
    ensures id !in db.users ==> r == Response(404, MsgUserNotFound, None)
  {
    if id in db.users then Response(200, MsgUserFound, Some(db.users[id]))
    else Response(404, MsgUserNotFound, None)
  }

  /** `get_user_by_email`. */
  function GetUserByEmail(db: Db, email: string): (r: Response<User>)
    requires Valid(db)
    ensures r.code == 200 <==> EmailTaken(db.users, email)
    ensures forall k | k in db.users && db.users[k].email == email :: r.data == Some(db.users[k])
    ensures !EmailTaken(db.users, email) ==> r == Response(404, MsgUserNotFound, None)
  {
    match FindByEmail(db, email)
    case Some(id) => Response(200, MsgUserFound, Some(db.users[id]))
    case None => Response(404, MsgUserNotFound, None)
  }

  /** `list_users`: every account exactly once, in ascending id order. */
  method ListUsers(db: Db) returns (r: Response<seq<User>>)
    requires Valid(db)
    ensures r.code == 200 && r.data.Some?
    ensures forall i | 0 <= i < |r.data.value| ::
      r.data.value[i].id in db.users && db.users[r.data.value[i].id] == r.data.value[i]
    ensures forall k | k in db.users :: db.users[k] in r.data.value
    ensures forall i, j | 0 <= i < j < |r.data.value| :: r.data.value[i].id < r.data.value[j].id
  {
    var ids := OrderedKeys(db.users, 1, db.nextUserId);
    var rows := seq(|ids|, i requires 0 <= i < |ids| => db.users[ids[i]]);
    forall k | k in db.users
      ensures db.users[k] in rows
    {
      var i :| 0 <= i < |ids| && ids[i] == k;
      assert rows[i] == db.users[k];
    }
    r := Response(200, MsgUserList, Some(rows));
  }

  /** `update_user`: overwrites the name and the email, each only when
      supplied. The UNIQUE index refuses an email another account holds. */
  function UpdateUser(db: Db, id: int, name: Option<string>, email: Option<string>): (r: Step<User>)
    requires Valid(db)
    ensures Valid(r.db)
    ensures CountersKept(r.db, db)
    ensures id !in db.users ==> r == Reply(db, Response(404, MsgUserNotFound, None))
    ensures r.CommitFailed? ==> r.db == db
    ensures id in db.users ==>
      var before := db.users[id];
      var newName := if Supplied(name) then name.value else before.name;
      var newEmail := if Supplied(email) then email.value else before.email;
      && (r.Reply? <==>
            && |newName| <= NameColumnWidth
            && |newEmail| <= EmailColumnWidth
            && (forall k | k in db.users && k != id :: db.users[k].email != newEmail))
      && (r.Reply? ==>
            && r.db.users.Keys == db.users.Keys
            && (forall k | k in db.users && k != id :: r.db.users[k] == db.users[k])
            && r.db.users[id] == before.(name := newName, email := newEmail)
            && r.db.livres == db.livres
            && r.resp == Response(200, MsgUserUpdated, Some(r.db.users[id])))
  {
    if id !in db.users then
      Reply(db, Response(404, MsgUserNotFound, None))
    else
      var user := db.users[id];
      var user' := user.(
        name := if Supplied(name) then name.value else user.name,
        email := if Supplied(email) then email.value else user.email);
      var after := db.(users := db.users[id := user']);
      assert BorrowersExist(after);
      assert after.users[id] == user';
      ReplacedEmailUnique(db.users, id, user');
      assert Constraints(after) <==>
        UserFitsColumns(user') && forall k | k in db.users && k != id :: db.users[k].email != user'.email;
      Commit(db, after, Response(200, MsgUserUpdated, Some(user')))
  }

  /** Replacing one account keeps emails unique exactly when no other
      account holds the replacement's email. */
  lemma ReplacedEmailUnique(users: map<int, User>, id: int, u: User)
    requires EmailsUnique(users) && id in users
    ensures EmailsUnique(users[id := u]) <==>
      forall k | k in users && k != id :: users[k].email != u.email
  {
    if !forall k | k in users && k != id :: users[k].email != u.email {
      var k :| k in users && k != id && users[k].email == u.email;
      assert users[id := u][k].email == users[id := u][id].email;
    }
  }

  /** `delete_user`: removes the account and, through the cascade on
      `User.livres`, every book it holds. */
  function DeleteUser(db: Db, id: int): (r: Step<()>)
    requires Valid(db)
    ensures Valid(r.db)
    ensures CountersKept(r.db, db)
    ensures id !in db.users ==> r == Reply(db, Response(404, MsgUserNotFound, None))
    ensures id in db.users ==>
      && r.Reply?
      && r.resp == Response(200, MsgUserDeleted, None)
      && r.db.users.Keys == db.users.Keys - {id}
      && (forall k | k in r.db.users :: r.db.users[k] == db.users[k])
      && (forall k :: k in r.db.livres <==> k in db.livres && db.livres[k].userId != Some(id))
      && (forall k | k in r.db.livres :: r.db.livres[k] == db.livres[k])
  {
    if id !in db.users then
      Reply(db, Response(404, MsgUserNotFound, None))
    else
      var kept := map k | k in db.livres && db.livres[k].userId != Some(id) :: db.livres[k];
      Commit(db, db.(users := db.users - {id}, livres := kept), Response(200, MsgUserDeleted, None))
  }

  /** `reset_password`: stores the hash of the new password on the account
      registered under `email`. */
  function ResetPassword(db: Db, email: string, newPassword: string): (r: Step<()>)
    requires Valid(db)
    ensures Valid(r.db)
    ensures CountersKept(r.db, db)
    ensures !EmailTaken(db.users, email) ==> r == Reply(db, Response(404, MsgUserNotFound, None))
    ensures EmailTaken(db.users, email) ==>
      && r.Reply?
      && r.resp == Response(200, MsgPasswordReset, None)
      && r.db.users.Keys == db.users.Keys
      && (forall k | k in db.users ::
            r.db.users[k] == if db.users[k].email == email
              then db.users[k].(password := Hash(newPassword)) else db.users[k])
      && r.db.livres == db.livres
  {
    match FindByEmail(db, email)
    case None => Reply(db, Response(404, MsgUserNotFound, None))
    case Some(id) =>
      var user' := db.users[id].(password := Hash(newPassword));
      Commit(db, db.(users := db.users[id := user']), Response(200, MsgPasswordReset, None))
  }

  /** Sets the active flag of one existing account. */
  function SetActive(db: Db, id: int, active: bool): Db
    requires id in db.users
  {
    db.(users := db.users[id := db.users[id].(isActive := active)])
  }

  /** `activate_user`. */
  function ActivateUser(db: Db, id: int): (r: Step<()>)
    requires Valid(db)
    ensures Valid(r.db)
    ensures CountersKept(r.db, db)
    ensures id !in db.users ==> r == Reply(db, Response(404, MsgUserNotFound, None))
    ensures id in db.users ==>
      && r.Reply?
      && r.resp == Response(200, MsgActivated, None)
      && r.db.users.Keys == db.users.Keys
      && r.db.users[id].isActive
      && r.db.users[id].(isActive := db.users[id].isActive) == db.users[id]
      && (forall k | k in db.users && k != id :: r.db.users[k] == db.users[k])
      && r.db.livres == db.livres
  {
    if id !in db.users then Reply(db, Response(404, MsgUserNotFound, None))
    else Commit(db, SetActive(db, id, true), Response(200, MsgActivated, None))
  }

  /** `deactivate_user`. */
  function DeactivateUser(db: Db, id: int): (r: Step<()>)
    requires Valid(db)
    ensures Valid(r.db)
    ensures CountersKept(r.db, db)
    ensures id !in db.users ==> r == Reply(db, Response(404, MsgUserNotFound, None))
    ensures id in db.users ==>
      && r.Reply?
      && r.resp == Response(200, MsgDeactivated, None)
      && r.db.users.Keys == db.users.Keys
      && !r.db.users[id].isActive
      && r.db.users[id].(isActive := db.users[id].isActive) == db.users[id]
      && (forall k | k in db.users && k != id :: r.db.users[k] == db.users[k])
      && r.db.livres == db.livres
  {
    if id !in db.users then Reply(db, Response(404, MsgUserNotFound, None))
    else Commit(db, SetActive(db, id, false), Response(200, MsgDeactivated, None))
  }
}
