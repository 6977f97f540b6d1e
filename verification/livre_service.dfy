/** The book operations (`LivreService`), including the two-state loan
    lifecycle: a book is lent only while it has no borrower, and returned
    only while it has one. */
module LivreService {
  import opened Models
  import opened Envelope
  import opened Schemas

  const MsgLivreCreated := "Livre créé avec succès."
  const MsgLivreFound := "Livre trouvé."
  const MsgLivreNotFound := "Livre non trouvé."
  const MsgLivreList := "Liste des livres."
  const MsgLivreUpdated := "Livre mis à jour."
  const MsgLivreDeleted := "Livre supprimé."
  const MsgNotAvailable := "Ce livre est déjà emprunté ou n'existe pas."
  const MsgBorrowed := "Livre emprunté avec succès."
  const MsgNotBorrowed := "Ce livre n'est pas emprunté."
  const MsgReturned := "Livre rendu avec succès."

  /** Replacing one book passes the commit exactly when the replacement
      fits its columns and names an existing borrower, if any; it keeps the
      store's invariant when it also keeps the loan columns in step. */
  lemma ReplacedLivreValid(db: Db, id: int, l: Livre)
    requires Valid(db) && id in db.livres && l.id == id
    ensures var after := db.(livres := db.livres[id := l]);
      Constraints(after) <==>
        LivreFitsColumns(l) && (l.userId.Some? ==> l.userId.value in db.users)
    ensures Constraints(db.(livres := db.livres[id := l])) && LoanFieldsAgree(l) ==>
      Valid(db.(livres := db.livres[id := l]))
  {
    var after := db.(livres := db.livres[id := l]);
    assert after.livres[id] == l;
    if l.userId.Some? ==> l.userId.value in db.users {
      assert BorrowersExist(after);
    }
  }

  /** `create_livre`: stores a new book with no borrower, stamped `now`. */
  function CreateLivre(db: Db, livre: LivreCreate, now: int): (r: Step<Livre>)
    requires Valid(db)
    ensures Valid(r.db)
    ensures r.Reply? <==>
      |livre.titre| <= TitreColumnWidth
      && (livre.description.Some? ==> |livre.description.value| <= DescriptionColumnWidth)
    ensures ValidLivreBase(livre) ==> r.Reply?
    ensures r.CommitFailed? ==> r.db == db
    ensures r.db.nextUserId == db.nextUserId
    ensures r.db.nextLivreId == if r.Reply? then db.nextLivreId + 1 else db.nextLivreId
    ensures r.Reply? ==>
      var id := db.nextLivreId;
      && id !in db.livres
      && r.db.livres.Keys == db.livres.Keys + {id}
      && (forall k | k in db.livres :: r.db.livres[k] == db.livres[k])
      && r.db.users == db.users
      && r.db.livres[id] == Livre(id, livre.titre, livre.description, livre.isLu, now, now, None, None)
      && r.resp == Response(201, MsgLivreCreated, Some(r.db.livres[id]))
  {
    var id := db.nextLivreId;
    var created := Livre(id, livre.titre, livre.description, livre.isLu, now, now, None, None);
    var after := db.(livres := db.livres[id := created], nextLivreId := id + 1);
    assert after.livres[id] == created;
    assert BorrowersExist(after);
    Commit(db, after, Response(201, MsgLivreCreated, Some(created)))
  }

  /** `get_livre`. */
  function GetLivre(db: Db, id: int): (r: Response<Livre>)
    ensures r.code == 200 <==> id in db.livres
    ensures id in db.livres ==> r.data == Some(db.livres[id])
    ensures id !in db.livres ==> r == Response(404, MsgLivreNotFound, None)
  {
    if id in db.livres then Response(200, MsgLivreFound, Some(db.livres[id]))
    else Response(404, MsgLivreNotFound, None)
  }

  /** `list_livres`: every book exactly once, in ascending id order. */
  method ListLivres(db: Db) returns (r: Response<seq<Livre>>)
    requires Valid(db)
    ensures r.code == 200 && r.data.Some?
    ensures forall i | 0 <= i < |r.data.value| ::
      r.data.value[i].id in db.livres && db.livres[r.data.value[i].id] == r.data.value[i]
    ensures forall k | k in db.livres :: db.livres[k] in r.data.value
    ensures forall i, j | 0 <= i < j < |r.data.value| :: r.data.value[i].id < r.data.value[j].id
  {
    var ids := OrderedKeys(db.livres, 1, db.nextLivreId);
    var rows := seq(|ids|, i requires 0 <= i < |ids| => db.livres[ids[i]]);
    forall k | k in db.livres
      ensures db.livres[k] in rows
    {
      var i :| 0 <= i < |ids| && ids[i] == k;
      assert rows[i] == db.livres[k];
    }
    r := Response(200, MsgLivreList, Some(rows));
  }

  /** `update_livre`: the title and the description are overwritten only
      when supplied (non-empty), the read flag whenever it is given, and
      the update time always. */
  function UpdateLivre(db: Db, id: int, titre: Option<string>, description: Option<string>,
                       isLu: Option<bool>, now: int): (r: Step<Livre>)
    requires Valid(db)
    ensures Valid(r.db)
    ensures CountersKept(r.db, db)
    ensures id !in db.livres ==> r == Reply(db, Response(404, MsgLivreNotFound, None))
    ensures r.CommitFailed? ==> r.db == db
    ensures id in db.livres ==>
      var before := db.livres[id];
      var updated := before.(
        titre := if Supplied(titre) then titre.value else before.titre,
        description := if Supplied(description) then description else before.description,
        isLu := if isLu.Some? then isLu.value else before.isLu,
        updatedAt := now);
      && (r.Reply? <==> LivreFitsColumns(updated))
      && (r.Reply? ==>
            && r.db.livres.Keys == db.livres.Keys
            && (forall k | k in db.livres && k != id :: r.db.livres[k] == db.livres[k])
            && r.db.livres[id] == updated
            && r.db.users == db.users
            && r.resp == Response(200, MsgLivreUpdated, Some(updated)))
  {
    if id !in db.livres then
      Reply(db, Response(404, MsgLivreNotFound, None))
    else
      var livre := db.livres[id];
      var livre' := livre.(
        titre := if Supplied(titre) then titre.value else livre.titre,
        description := if Supplied(description) then description else livre.description,
        isLu := if isLu.Some? then isLu.value else livre.isLu,
        updatedAt := now);
      ReplacedLivreValid(db, id, livre');
      Commit(db, db.(livres := db.livres[id := livre']), Response(200, MsgLivreUpdated, Some(livre')))
  }

  /** `delete_livre`: removes the book whatever its loan state. */
  function DeleteLivre(db: Db, id: int): (r: Step<()>)
    requires Valid(db)
    ensures Valid(r.db)
    ensures CountersKept(r.db, db)
    ensures id !in db.livres ==> r == Reply(db, Response(404, MsgLivreNotFound, None))
    ensures id in db.livres ==>
      && r.Reply?
      && r.resp == Response(200, MsgLivreDeleted, None)
      && r.db.livres.Keys == db.livres.Keys - {id}
      && (forall k | k in r.db.livres :: r.db.livres[k] == db.livres[k])
      && r.db.users == db.users
  {
    if id !in db.livres then
      Reply(db, Response(404, MsgLivreNotFound, None))
    else
      var after := db.(livres := db.livres - {id});
      assert BorrowersExist(after);
      Commit(db, after, Response(200, MsgLivreDeleted, None))
  }

  /** A book that exists and has no borrower. */
  predicate Available(db: Db, id: int) {
    id in db.livres && !IsBorrowed(db.livres[id])
  }

  /** A book that exists and has a borrower. */
  predicate OnLoan(db: Db, id: int) {
    id in db.livres && IsBorrowed(db.livres[id])
  }

  /** `emprunter_livre`: a single filtered lookup finds the book only if it
      is available; the foreign key then refuses an unknown borrower. The
      update also refreshes `updated_at` (its `onupdate` default). */
  function EmprunterLivre(db: Db, livreId: int, userId: int, now: int): (r: Step<Livre>)
    requires Valid(db)
    ensures Valid(r.db)
    ensures CountersKept(r.db, db)
    ensures !Available(db, livreId) ==> r == Reply(db, Response(400, MsgNotAvailable, None))
    ensures Available(db, livreId) ==> (r.Reply? <==> userId in db.users)
    ensures r.CommitFailed? ==> r.db == db
    ensures r.Reply? && r.resp.code == 200 <==> Available(db, livreId) && userId in db.users
    ensures Available(db, livreId) && r.Reply? ==>
      var lent := db.livres[livreId].(userId := Some(userId), emprunteLe := Some(now), updatedAt := now);
      && r.db.livres.Keys == db.livres.Keys
      && (forall k | k in db.livres && k != livreId :: r.db.livres[k] == db.livres[k])
      && r.db.livres[livreId] == lent
      && r.db.users == db.users
      && r.resp == Response(200, MsgBorrowed, Some(lent))
  {
    if !Available(db, livreId) then
      Reply(db, Response(400, MsgNotAvailable, None))
    else
      var livre' := db.livres[livreId].(userId := Some(userId), emprunteLe := Some(now), updatedAt := now);
      ReplacedLivreValid(db, livreId, livre');
      Commit(db, db.(livres := db.livres[livreId := livre']), Response(200, MsgBorrowed, Some(livre')))
  }

  /** `rendre_livre`: a single filtered lookup finds the book only if it is
      on loan; both loan columns are then cleared together. */
  function RendreLivre(db: Db, livreId: int, now: int): (r: Step<Livre>)
    requires Valid(db)
    ensures Valid(r.db)
    ensures CountersKept(r.db, db)
    ensures !OnLoan(db, livreId) ==> r == Reply(db, Response(400, MsgNotBorrowed, None))
    ensures OnLoan(db, livreId) ==>
      var returned := db.livres[livreId].(userId := None, emprunteLe := None, updatedAt := now);
      && r.Reply?
      && r.db.livres.Keys == db.livres.Keys
      && (forall k | k in db.livres && k != livreId :: r.db.livres[k] == db.livres[k])
      && r.db.livres[livreId] == returned
      && r.db.users == db.users
      && r.resp == Response(200, MsgReturned, Some(returned))
  {
    if !OnLoan(db, livreId) then
      Reply(db, Response(400, MsgNotBorrowed, None))
    else
      var livre' := db.livres[livreId].(userId := None, emprunteLe := None, updatedAt := now);
      ReplacedLivreValid(db, livreId, livre');
      Commit(db, db.(livres := db.livres[livreId := livre']), Response(200, MsgReturned, Some(livre')))
  }
}
