# Library accounts and lending, modelled in Dafny

This project models the service layer of a small library API. The API keeps
user accounts (`users`) and book records (`livres`). It authenticates
accounts by password and issues bearer tokens. It also tracks which account,
if any, currently borrows each book.

The database is modelled as a value `Db`. It holds two finite maps, one from
user id to `User` and one from book id to `Livre`, plus the next value of each
auto-increment counter. Every service method becomes a pure transition. Its
inputs are the store, the arguments and the current time `now` (an integer).
Its output is a `Step`:

- `Reply(db', response)`: the service returned the `{code, message, data}`
  envelope after committing its writes.
- `CommitFailed(db)`: the database refused the commit and the transaction
  was rolled back, so the store is unchanged.

Read-only methods return the envelope alone.

The commit checks the constraints the schema declares:

- the UNIQUE index on `users.email`;
- the foreign key from `livres.user_id` to `users.id`;
- the column widths.

This is how the model captures behaviour the services leave to the database:

- `update_user` to an email another account holds is refused at commit.
- `emprunter_livre` for an account id that does not exist is refused at commit.
- A title longer than 255 characters passed to `update_livre` is refused at commit.

`Valid(db)` is the invariant of every reachable store. It combines:

- the database constraints above;
- every row stored under its own primary key, below the counter;
- for every book, the borrower and the loan time are null together or set together.

Every writing transition is proved to preserve it. `Lifecycle.ServeAll`
extends this to any sequence of requests.

Modules follow the source files:

- `Models` covers `app/models.py`.
- `Schemas` covers `app/schemas.py`.
- `Envelope` covers the shared helpers of `app/services.py`: `response`, `create_access_token` and the commit.
- `UserService`, `LivreService` and `StatsService` cover the three service classes.
- `Lifecycle` holds the properties that span several calls.

Behaviour of the code worth noting:

- Deleting an account deletes the books it holds. The relationship `User.livres` cascades "all, delete-orphan", so it does not merely clear their borrower.
- A duplicate email on creation yields code 400, not a distinct conflict code.
- Every `Livre` update, including lending and returning, also refreshes `updated_at`, because of that column's `onupdate` default.
- A book can be lent only to an existing account. The service does not check this; the foreign key refuses the commit.
- The update services do not re-apply the request bounds. `update_user` can store a two-letter name and `update_livre` a two-letter title. Such a row then fails the response validation, which re-applies those bounds.
- The request schema sets no maximum password length, yet bcrypt reads only the first 72 bytes of the UTF-8 encoded password. With a bcrypt backend that drops the excess, two passwords sharing those 72 bytes log in alike; the model follows such a backend.

## Model

| member | source | states |
|---|---|---|
| `Models.Utf8` | app/services.py:35 | the encoding passed to bcrypt: an ASCII string encodes to its own code points, one byte per character |
| `Models.BcryptSecret` | app/services.py:13 | the part of a password bcrypt hashes: exactly the first 72 bytes of its UTF-8 encoding when that is longer, and the whole encoding otherwise |
| `Models.Hash` | app/services.py:35 | a password verifies against its own stored digest, and another password verifies iff it has the same first 72 UTF-8 bytes |
| `Models.ShortAsciiPasswordsDistinct` | app/services.py:35 | two ASCII passwords of at most 72 characters verify against each other iff they are equal |
| `Models.LongPasswordsTruncated` | app/services.py:35 | with a backend that drops bytes past the 72nd, any two passwords that share a 72-byte prefix verify against each other |
| `Models.EmptyDbValid` | app/database.py:31-34 | freshly created, empty tables satisfy every constraint and invariant of the store |
| `Schemas.LivreBaseWithDefaults` | app/schemas.py:6-9 | a book body that sends only a title has no description and is unread; it is valid iff the title has 3 to 255 characters |
| `Schemas.ValidLivreBaseFitsColumns` | app/schemas.py:7-8 | a book body that passes validation fits the `titre` and `description` columns |
| `Schemas.ToLivreResponse` | app/schemas.py:6-19 | a row reads as a book response iff its title has 3 to 255 characters and its description at most 500; the response then carries every field of the row, borrower and loan time included, and on a consistent row these are absent together |
| `Schemas.ToUserResponse` | app/schemas.py:24-37 | an account reads as a user response iff its name has 3 to 100 characters; the response then carries id, name, email, creation time and active flag |
| `Schemas.UserResponseHidesPassword` | app/schemas.py:34-37 | changing an account's stored hash does not change its response: the hash is never exposed |
| `Envelope.Commit` | app/models.py:10-31 | the commit is accepted iff the new store meets the column widths, the unique email index and the foreign key; a refused commit leaves the store as it was; an accepted one keeps the store invariant when the service keeps ids and loan columns in order |
| `Envelope.CreateAccessToken` | app/services.py:15-19 | the token's subject is the given one; it expires 30 minutes after `now` unless a non-zero lifetime is given, which is then used |
| `Envelope.OrderedKeys` | app/services.py:152 | the ids of a table, each exactly once, strictly ascending |
| `UserService.FirstWithEmail` | app/services.py:29 | the email filter with `.first()` finds the lowest matching id in range, and finds nothing iff no account in range has that email |
| `UserService.FindByEmail` | app/services.py:46 | finds an account iff the email is registered, and then exactly the one account holding it |
| `UserService.CreateUser` | app/services.py:28-42 | a registered email gives 400 and no change; otherwise exactly one inactive account with the hash of the password and the next id is added, with code 201; a validated body with an email that fits its column never fails to commit |
| `UserService.AuthenticateUser` | app/services.py:45-57 | unknown email gives 404, inactive account 403, wrong password 401, otherwise 200 with that account and a token for its email; the four cases are exclusive and decided in this order |
| `UserService.GetUser` | app/services.py:60-62 | 200 with the account iff the id exists, otherwise 404 |
| `UserService.GetUserByEmail` | app/services.py:65-67 | 200 with the account holding the email iff it is registered, otherwise 404 |
| `UserService.ListUsers` | app/services.py:71-73 | code 200 and every account exactly once, as stored, in ascending id order |
| `UserService.ReplacedEmailUnique` | app/models.py:11 | replacing one account keeps emails unique iff no other account holds the new email |
| `UserService.UpdateUser` | app/services.py:76-87 | 404 when absent; otherwise only the supplied non-empty name and email change on that account and nothing else changes; the commit is refused iff the new email belongs to another account or a field overflows its column |
| `UserService.DeleteUser` | app/services.py:90-97 | 404 when absent; otherwise the account and exactly the books it borrows are removed, everything else unchanged |
| `UserService.ResetPassword` | app/services.py:100-107 | 404 for an unknown email; otherwise only that account's stored hash changes, to the hash of the new password |
| `UserService.ActivateUser` | app/services.py:110-117 | 404 when absent; otherwise that account becomes active, with no other field or record changed |
| `UserService.DeactivateUser` | app/services.py:120-127 | 404 when absent; otherwise that account becomes inactive, with no other field or record changed |
| `LivreService.ReplacedLivreValid` | app/models.py:23-31 | replacing one book passes the commit iff the new row fits its columns and names an existing borrower, if any |
| `LivreService.CreateLivre` | app/services.py:132-143 | adds exactly one book under the next id, with no borrower and no loan time, stamped `now`, with code 201; a validated body always commits |
| `LivreService.GetLivre` | app/services.py:146-148 | 200 with the book iff the id exists, otherwise 404 |
| `LivreService.ListLivres` | app/services.py:151-153 | code 200 and every book exactly once, as stored, in ascending id order |
| `LivreService.UpdateLivre` | app/services.py:156-170 | 404 when absent; otherwise the title and description change only when supplied and non-empty, the read flag whenever given, and `updated_at` becomes `now`; nothing else changes; the commit is refused iff a field overflows its column |
| `LivreService.DeleteLivre` | app/services.py:173-180 | 404 when absent; otherwise exactly that book is removed, whatever its loan state |
| `LivreService.EmprunterLivre` | app/services.py:183-191 | succeeds with 200 iff the book exists, has no borrower and the account exists; it then sets borrower, loan time and update time on that book only; a missing or borrowed book gives 400 with no change |
| `LivreService.RendreLivre` | app/services.py:194-202 | succeeds with 200 iff the book exists and has a borrower; it then clears borrower and loan time together on that book only; otherwise 400 with no change |
| `StatsService.BorrowedIds` | app/services.py:210 | the borrowed books are exactly the stored books with a non-null borrower |
| `StatsService.GetStats` | app/services.py:207-217 | counts accounts, books and borrowed books, with borrowed at most total; the rate is the literal zero iff there are no books, otherwise the ratio of the two counts |
| `Lifecycle.NewAccountIsInactive` | app/services.py:37 | a just-created account is refused with 403 whatever the password |
| `Lifecycle.ActivationEnablesLogin` | app/services.py:45-57 | after activation the new account logs in (200) exactly with a password whose first 72 UTF-8 bytes match its creation password, and gets 401 with any other |
| `Lifecycle.DuplicateEmailRefused` | app/services.py:29-30 | creating a second account with an email just registered gives 400 and no change |
| `Lifecycle.CreatedUserIsFound` | app/services.py:60-67 | an account just created is found by id and by email, exactly as the creation returned it |
| `Lifecycle.ShortNameStoredButUnreadable` | app/services.py:76-87 | updating an account's name to two letters commits, and the stored account no longer reads as a user response |
| `Lifecycle.CreatedLivreIsFound` | app/services.py:132-148 | a book just created is found by id as the creation returned it; it reads as a book response iff its body was valid, and then with no borrower and no loan time |
| `Lifecycle.ShortTitreStoredButUnreadable` | app/services.py:156-170 | updating a book's title to two letters commits, and the stored row no longer reads as a book response |
| `Lifecycle.UpdatedLivreIsFound` | app/services.py:146-170 | a book just updated is found by id as the update returned it |
| `Lifecycle.ActivateIdempotent` | app/services.py:110-117 | activating twice leaves the same store as activating once |
| `Lifecycle.DeactivateIdempotent` | app/services.py:120-127 | deactivating twice leaves the same store as deactivating once |
| `Lifecycle.DeletedAccountHoldsNothing` | app/models.py:17 | after an account is deleted no remaining book names it as borrower |
| `Lifecycle.BorrowIsExclusive` | app/services.py:183-191 | a book just lent cannot be lent again, to any account, and the refusal changes nothing |
| `Lifecycle.LoanCycleRepeats` | app/services.py:194-202 | after a loan the return succeeds and clears both loan columns, and the book can then be lent to any existing account |
| `Lifecycle.BorrowCountsOneMore` | app/services.py:210 | a successful loan raises the borrowed count by exactly one and leaves the book count unchanged |
| `Lifecycle.ReturnCountsOneLess` | app/services.py:210 | a successful return lowers the borrowed count by exactly one and leaves the book count unchanged |
| `Lifecycle.Serve` | app/services.py:28-202 | every writing service call preserves the store invariant |
| `Lifecycle.ServeAll` | app/services.py:28-202 | any sequence of writing calls preserves the store invariant |
| `Lifecycle.ReachableStoresValid` | app/models.py:11-31 | every store reachable from empty tables keeps emails unique, borrowers existing and loan columns in step |
| `Lifecycle.PetitPrinceScenario` | app/services.py:132-202 | a new book is unread and free; account 7 borrows it; account 9 is refused; it is returned; account 9 then borrows it |

## Left out

- HTTP routing (`app/routes/items.py`, `app/main.py`) is not part of this model. It is dispatch glue, and it calls service methods that `app/services.py` does not define (`get_user_from_token`, `get_user_by_id`, `get_livre_by_id`, `update_livre_status`). So the read-flag-only update and the token check it implies are not modelled.
- Database bootstrapping and configuration (`app/database.py`, `app/core/config.py`) are I/O only.
- Models.Hash: bcrypt's salting and digest text are not modelled. The digest stands for the first 72 bytes of the password's UTF-8 encoding, and two different 72-byte secrets are taken never to verify against each other.
- Models.Hash: passlib's own secret checks are not modelled. It raises for a password containing a NUL character and for one over 4096 bytes, in both hashing and verifying. For such passwords `create_user`, `reset_password` and `authenticate_user` raise instead of returning 201, 200 or 401 as the model does.
- Models.BcryptSecret: silently dropping bytes past the 72nd depends on the installed bcrypt backend. Newer releases of the `bcrypt` package raise for such secrets instead, and that error path is not modelled. Models.LongPasswordsTruncated and Lifecycle.ActivationEnablesLogin hold only under a truncating backend.
- Envelope.CreateAccessToken: the HS256 signature and the secret key are not modelled. Only the claims are, with times as integer seconds.
- StatsService.GetStats: the floating-point value of `round(borrowed / total * 100, 2)` is not computed. The rate is kept as the exact ratio of the two counts.
- UserService.FindByEmail: the email filter is modelled as exact string equality. The database collation may compare case-insensitively, and that is not modelled.
- Models.EmailsUnique: the unique index is modelled with exact string equality. Under a case-insensitive collation it would also refuse emails that differ only in case. The same holds for the 400 branch of UserService.CreateUser and the refused commit of UserService.UpdateUser.
- Models.UserFitsColumns: over-long strings are refused at commit only when MySQL runs in strict SQL mode. Otherwise it truncates them with a warning, and that is not modelled. The same holds for Models.LivreFitsColumns.
- Envelope.Commit: a refused commit leaves the auto-increment counters as they were. InnoDB may consume an id on a failed insert, and that is not modelled.
- Email-format validation by `EmailStr` is library behaviour and is not modelled. Schemas.ToUserResponse therefore re-checks only the name bound.
- UserService.ListUsers: the model fixes ascending id order. The query has no ORDER BY, so the source promises no order.
- LivreService.ListLivres: the model fixes ascending id order. The query has no ORDER BY, so the source promises no order.
- LivreService.EmprunterLivre: the read-then-write race between two concurrent loans is not modelled. Every call is one atomic, sequential transition.
- Real timestamps are not modelled. `datetime.utcnow()` is the `now` parameter, and all clock reads within one call are taken to be equal.
- Database errors other than the checked constraints (lost connections, for instance) are not modelled.
- The defaults `is_active = True` on the `users` column and on `UserResponse` are never used on these paths. `create_user` always stores `False`, and responses read the stored value.
- The `is_lu` column default is also never used. `create_livre` always passes the body's value, which itself defaults to `False`.
- ORM session details are not modelled: refreshes, lazy loading and orphan tracking.
