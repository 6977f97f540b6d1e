/** The persistent records of the library (the `users` and `livres` tables),
    the store that holds them, and the constraints the database enforces on
    every commit.
 */
module Models {

  /** A nullable column or an optional argument. */
  datatype Option<+T> = None | Some(value: T)

  /** The UTF-8 encoding of a string, one Unicode scalar value at a time. */
  function Utf8(s: string): (bytes: seq<int>)
    ensures (forall i | 0 <= i < |s| :: s[i] as int < 0x80) ==>
      bytes == seq(|s|, i requires 0 <= i < |s| => s[i] as int)
  {
    if |s| == 0 then []
    else Utf8Char(s[0] as int) + Utf8(s[1..])
  }

  function Utf8Char(n: int): seq<int> {
    if n < 0x80 then [n]
    else if n < 0x800 then [0xC0 + n / 0x40, 0x80 + n % 0x40]
    else if n < 0x10000 then [0xE0 + n / 0x1000, 0x80 + (n / 0x40) % 0x40, 0x80 + n % 0x40]
    else [0xF0 + n / 0x40000, 0x80 + (n / 0x1000) % 0x40, 0x80 + (n / 0x40) % 0x40, 0x80 + n % 0x40]
  }

  /** bcrypt reads at most this many bytes of a secret. The bcrypt backends
      this model follows drop the rest; some newer ones refuse such a secret
      instead. */
  const BcryptMaxSecretBytes := 72

  /** The part of a password that bcrypt actually hashes. */
  function BcryptSecret(password: string): (key: seq<int>)
    ensures |key| <= BcryptMaxSecretBytes
    ensures key <= Utf8(password)
    ensures |Utf8(password)| <= BcryptMaxSecretBytes ==> key == Utf8(password)
    ensures |Utf8(password)| > BcryptMaxSecretBytes ==> |key| == BcryptMaxSecretBytes
  {
    var bytes := Utf8(password);
    if |bytes| <= BcryptMaxSecretBytes then bytes else bytes[..BcryptMaxSecretBytes]
  }

  /** Stand-in for a bcrypt digest: what it is a digest of. Salting and the
      digest's text are not modelled; distinct secrets are taken to give
      digests that do not verify against each other. */
  datatype PasswordHash = Bcrypt(secret: seq<int>)

  function Hash(password: string): (h: PasswordHash)
    ensures Verify(password, h)
    ensures forall other: string :: Verify(other, h) <==> BcryptSecret(other) == BcryptSecret(password)
  {
    Bcrypt(BcryptSecret(password))
  }

  predicate Verify(password: string, h: PasswordHash) {
    h.secret == BcryptSecret(password)
  }

  /** Short ASCII passwords are hashed whole: two distinct ones never
      verify against each other. */
  lemma ShortAsciiPasswordsDistinct(p: string, q: string)
    requires forall i | 0 <= i < |p| :: p[i] as int < 0x80
    requires forall i | 0 <= i < |q| :: q[i] as int < 0x80
    requires |p| <= BcryptMaxSecretBytes && |q| <= BcryptMaxSecretBytes
    ensures Verify(q, Hash(p)) <==> q == p
  {
  }

  /** Passwords that agree on their first 72 bytes verify against each
      other, whatever further bytes the modelled hash is given. */
  lemma LongPasswordsTruncated(prefix: string, p: string, q: string)
    requires |Utf8(prefix)| == BcryptMaxSecretBytes
    ensures Verify(prefix + q, Hash(prefix + p))
  {
    Utf8Append(prefix, p);
    Utf8Append(prefix, q);
  }

  lemma {:induction false} Utf8Append(a: string, b: string)
    ensures Utf8(a + b) == Utf8(a) + Utf8(b)
    decreases |a|
  {
    if |a| == 0 {
      assert a + b == b;
    } else {
      assert (a + b)[0] == a[0];
      assert (a + b)[1..] == a[1..] + b;
      Utf8Append(a[1..], b);
    }
  }

  // Column widths of the two tables.
  const NameColumnWidth := 100
  const EmailColumnWidth := 255
  const TitreColumnWidth := 255
  const DescriptionColumnWidth := 500

  /** A row of `users`. */
  datatype User = User(
    id: int,
    name: string,
    email: string,
    password: PasswordHash,
    isActive: bool,
    createdAt: int)

  /** A row of `livres`. `userId` is the borrower (a nullable, non-unique
      foreign key to `users`) and `emprunteLe` the time of the loan. */
  datatype Livre = Livre(
    id: int,
    titre: string,
    description: Option<string>,
    isLu: bool,
    createdAt: int,
    updatedAt: int,
    emprunteLe: Option<int>,
    userId: Option<int>)

  predicate IsBorrowed(l: Livre) {
    l.userId.Some?
  }

  /** The borrower and the loan time are set and cleared together. */
  predicate LoanFieldsAgree(l: Livre) {
    l.userId.None? <==> l.emprunteLe.None?
  }

  /** The two tables, keyed by primary key, with the next value of each
      auto-increment counter. */
  datatype Db = Db(
    users: map<int, User>,
    livres: map<int, Livre>,
    nextUserId: int,
    nextLivreId: int)

  const EmptyDb: Db := Db(map[], map[], 1, 1)

  /** Neither auto-increment counter moved. */
  predicate CountersKept(a: Db, b: Db) {
    a.nextUserId == b.nextUserId && a.nextLivreId == b.nextLivreId
  }

  predicate UserFitsColumns(u: User) {
    |u.name| <= NameColumnWidth && |u.email| <= EmailColumnWidth
  }

  predicate LivreFitsColumns(l: Livre) {
    && |l.titre| <= TitreColumnWidth
    && (l.description.Some? ==> |l.description.value| <= DescriptionColumnWidth)
  }

  /** The UNIQUE index on `users.email`. */
  predicate EmailsUnique(users: map<int, User>) {
    forall a, b | a in users && b in users && a != b :: users[a].email != users[b].email
  }

  predicate EmailTaken(users: map<int, User>, email: string) {
    exists k | k in users :: users[k].email == email
  }

  /** The FOREIGN KEY from `livres.user_id` to `users.id`. */
  predicate BorrowersExist(db: Db) {
    forall k | k in db.livres && db.livres[k].userId.Some? :: db.livres[k].userId.value in db.users
  }

  /** What the database checks when a transaction commits. */
  predicate Constraints(db: Db) {
    && (forall k | k in db.users :: UserFitsColumns(db.users[k]))
    && (forall k | k in db.livres :: LivreFitsColumns(db.livres[k]))
    && EmailsUnique(db.users)
    && BorrowersExist(db)
  }

  /** Every row sits under its own primary key, below the counter. */
  predicate IdsAssigned(db: Db) {
    && 1 <= db.nextUserId
    && 1 <= db.nextLivreId
    && (forall k | k in db.users :: 1 <= k < db.nextUserId && db.users[k].id == k)
    && (forall k | k in db.livres :: 1 <= k < db.nextLivreId && db.livres[k].id == k)
  }

  /** What the services keep true of the loan columns. */
  predicate LoansConsistent(db: Db) {
    forall k | k in db.livres :: LoanFieldsAgree(db.livres[k])
  }

  /** The invariant of every reachable store. */
  predicate Valid(db: Db) {
    Constraints(db) && IdsAssigned(db) && LoansConsistent(db)
  }

  lemma EmptyDbValid()
    ensures Valid(EmptyDb)
  {
  }
}
