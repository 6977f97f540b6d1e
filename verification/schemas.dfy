/** The request and response shapes, with the field bounds the request
    validation enforces before a service is called. */
module Schemas {
  import opened Models

  const TitreMinLength := 3
  const TitreMaxLength := 255
  const DescriptionMaxLength := 500
  const NameMinLength := 3
  const NameMaxLength := 100
  const PasswordMinLength := 6

  /** The body of a book creation (`LivreBase`, and `LivreCreate` which adds nothing). */
  datatype LivreBase = LivreBase(titre: string, description: Option<string>, isLu: bool)

  type LivreCreate = LivreBase

  predicate ValidLivreBase(b: LivreBase) {
    && TitreMinLength <= |b.titre| <= TitreMaxLength
    && (b.description.Some? ==> |b.description.value| <= DescriptionMaxLength)
  }

  /** A book body in which only the required title was sent. */
  function LivreBaseWithDefaults(titre: string): (b: LivreBase)
    ensures b.titre == titre
    ensures b.description.None? && !b.isLu
    ensures ValidLivreBase(b) <==> TitreMinLength <= |titre| <= TitreMaxLength
  {
    LivreBase(titre, None, false)
  }

  /** The validated book body fits the `livres` columns. */
  lemma ValidLivreBaseFitsColumns(b: LivreBase, id: int, now: int)
    requires ValidLivreBase(b)
    ensures LivreFitsColumns(Livre(id, b.titre, b.description, b.isLu, now, now, None, None))
  {
  }

  datatype LivreResponse = LivreResponse(
    id: int,
    titre: string,
    description: Option<string>,
    isLu: bool,
    emprunteLe: Option<int>,
    userId: Option<int>)

  /** Reads a response from a row's attributes. The response re-validates
      the `LivreBase` bounds it inherits, so a row whose title or
      description breaks them (as `update_livre` may store) has none. */
  function ToLivreResponse(l: Livre): (r: Option<LivreResponse>)
    ensures r.Some? <==> ValidLivreBase(LivreBase(l.titre, l.description, l.isLu))
    ensures r.Some? ==>
      && r.value.id == l.id && r.value.titre == l.titre
      && r.value.description == l.description && r.value.isLu == l.isLu
      && r.value.userId == l.userId && r.value.emprunteLe == l.emprunteLe
    ensures r.Some? && LoanFieldsAgree(l) ==> (r.value.userId.None? <==> r.value.emprunteLe.None?)
  {
    if ValidLivreBase(LivreBase(l.titre, l.description, l.isLu)) then
      Some(LivreResponse(l.id, l.titre, l.description, l.isLu, l.emprunteLe, l.userId))
    else
      None
  }

  /** The body of an account creation (`UserBase` plus the password). */
  datatype UserCreate = UserCreate(name: string, email: string, password: string)

  /** The name bound of `UserBase`; the email format check is not modelled. */
  predicate ValidUserBase(name: string) {
    NameMinLength <= |name| <= NameMaxLength
  }

  predicate ValidUserCreate(u: UserCreate) {
    ValidUserBase(u.name) && |u.password| >= PasswordMinLength
  }

  /** The account shape returned to callers: it has no password field. */
  datatype UserResponse = UserResponse(
    id: int,
    name: string,
    email: string,
    createdAt: int,
    isActive: bool)

  /** Reads a response from an account's attributes. The response
      re-validates the `UserBase` name bound it inherits, so an account whose
      name breaks it (as `update_user` may store) has none. */
  function ToUserResponse(u: User): (r: Option<UserResponse>)
    ensures r.Some? <==> ValidUserBase(u.name)
    ensures r.Some? ==>
      && r.value.id == u.id && r.value.name == u.name && r.value.email == u.email
      && r.value.createdAt == u.createdAt && r.value.isActive == u.isActive
  {
    if ValidUserBase(u.name) then Some(UserResponse(u.id, u.name, u.email, u.createdAt, u.isActive))
    else None
  }

  /** Two accounts that differ only in their stored hash look the same to a
      caller: the hash never reaches a user response. */
  lemma UserResponseHidesPassword(u: User, h: PasswordHash)
    ensures ToUserResponse(u.(password := h)) == ToUserResponse(u)
  {
  }
}
