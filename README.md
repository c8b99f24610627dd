# Accounting store of the e-wallet service, in Dafny

This project models the storage core of the wallet service: four tables
(users, wallets, transactions and ledger entries), the integrity rules their
schema declares, and the repositories that add, look up and delete rows.
The derived quantities are modelled too: a wallet's balance, its ledger
history, and a user's wallets.

- `wrappers.dfy` (`Wrappers`): `Option`, `Result`, `Outcome`.
- `seqs.dfy` (`Seqs`): generic table helpers. `Filter` is a `WHERE`; `FindFirst` finds a row;
  `WithoutKey` is what deleting by a key leaves; `KeysDistinct` says a column is unique, with lemmas
  that appends and deletes keep it unique.
- `models.dfy` (`Models`): the row types and the `Tables` value. It also holds the column types:
  NUMERIC(18, 2) as a range of cents, CHAR(3) as `StoreFixedChar`, and the rule that text holds no U+0000.
  `Consistent` gathers the schema's rules: primary keys, the unique email, and the foreign keys.
- `queries.dfy` (`Queries`): the read-only repository calls as functions over the tables.
  It also holds the lemmas about the balance and the history.
- `updates.dfy` (`Updates`): each `add` and `delete` as a function from the tables to the new tables
  or the store's error. Each keeps `Consistent`.
- `repositories.dfy` (`Repositories`): a `Session` class holding the four tables as `seq` fields.
  The four repository classes share it, and their `Add`/`Delete` methods change it in place.

Representation choices:
- Ids (UUIDs in the service) are naturals and timestamps are integers, both supplied by the caller.
- Amounts are integers counting cents. NUMERIC(18, 2) holds up to 18 digits, two after the point,
  so a storable amount is one with |cents| < 10^18.
- Each table is a sequence in insertion order. A primary key is a column no two positions share.
- A refused write returns the error and leaves the tables exactly as they were.
- Every repository call acts on the store at once.
- The source marks the three foreign keys as not nullable. In the model an absent reference cannot be
  written at all, since `Id` is not optional.
- Delete methods take the primary key of the row to delete; the service passes the row object, which
  the ORM deletes by its identity.
- Deleting a user cascades to the wallets it owns. When a ledger entry refers to one of those wallets,
  the whole delete is refused and nothing is removed (`StillReferenced`). The same refusal applies to
  deleting a wallet or a transaction that entries refer to. In the service it comes about like this:
  `Wallet.ledger_entries` and `Transaction.ledger_entries` have no delete cascade, so the ORM first sets
  the entries' foreign key to NULL, and the NOT NULL columns then raise the integrity error. The
  database's `ON DELETE RESTRICT` would refuse the same deletes.
- PostgreSQL text values cannot contain the character U+0000, and the driver refuses such a string.
  So an add whose email, password hash, currency, type or status holds one is refused (`NulCharacter`).
- `Transaction.type` (here `kind`) and `status` are free text with no state machine, as in the
  source.

What the code does not do, and so the model does not either:
- The code has no deposit/withdraw/transfer orchestration. So there is no conservation rule, no
  non-negative-balance rule, no currency-match rule and no status machine.
- The currency column is CHAR(3), not a checked ISO 4217 code. A shorter string is padded with
  blanks. A longer one is accepted only when everything past the third character is blank, and is
  then cut to three characters.
- `get_by_email` compares emails exactly (case-sensitive); emails are not normalised.

## Model

| member | source | states |
|---|---|---|
| `Models.FitsAmountColumn` | src/db/models.py:68 | NUMERIC(18, 2) counted in cents holds an amount exactly when its magnitude has at most 18 decimal digits |
| `Models.DigitsBelow` | src/db/models.py:68 | a whole number has at most k decimal digits exactly when it is below 10^k, so the range bound 10^18 is the 18-digit limit |
| `Models.UsersValid` | src/db/models.py:14-18 | the users table's rules: primary key `id`, unique `email`, text without U+0000; under them a user is determined by its id and by its email |
| `Models.WalletsValid` | src/db/models.py:28-32 | the wallets table's rules: primary key `id`, a stored owner, a full CHAR(3) currency; under them a wallet is determined by its id and its currency is stored again unchanged |
| `Models.TransactionsValid` | src/db/models.py:46-50 | the transactions table's rules: primary key `id`, text without U+0000; under them a transaction is determined by its id |
| `Models.EntriesValid` | src/db/models.py:60-68 | the ledger table's rules: primary key `id`, stored wallet and transaction, NUMERIC(18, 2) amount; under them an entry is determined by its id and its amount has at most 18 digits |
| `Models.Consistent` | src/db/models.py:11-75 | all of the schema's rules together; under them every ledger entry's wallet is stored and owned by a stored user |
| `Models.StoreFixedChar` | src/db/models.py:32 | the currency column CHAR(3) accepts a string exactly when it has at most 3 characters or only blanks past the third; what it stores has exactly 3 characters: the string's own, then blanks |
| `Models.StoreFixedCharStable` | src/db/models.py:32 | a 3-character currency is stored unchanged, and storing a stored value again changes nothing |
| `Seqs.WithoutKey` | src/db/repositories.py:74-75 | a delete by key leaves exactly the rows with another key, and leaves the table unchanged when no row has the key |
| `Seqs.WithoutKeyDistinct` | src/db/models.py:14-16 | deleting rows by a key keeps every unique column (a primary key, the unique email) unique |
| `Queries.UserById` | src/db/repositories.py:15-16 | `get` returns None exactly when no user has that id, otherwise a stored user with that id; under the primary key that is the one user with that id |
| `Queries.UserByEmail` | src/db/repositories.py:18-19 | `get_by_email` returns None exactly when no user has that email, otherwise a stored user with exactly that email; under email uniqueness it is the only one |
| `Queries.WalletById` | src/db/repositories.py:35-36 | `get_by_id` on wallets: None exactly when the id is unknown, else the one stored wallet with that id |
| `Queries.TransactionById` | src/db/repositories.py:60-61 | `get_by_id` on transactions: None exactly when the id is unknown, else the one stored transaction with that id |
| `Queries.WalletsOfUser` | src/db/repositories.py:45-47 | `get_all_wallets_of_user` returns exactly the stored wallets whose `user_id` is the user (none when it owns none), without duplicate keys |
| `Queries.WalletsOfUserAppend` | src/db/repositories.py:45-47 | a newly stored wallet is appended to its owner's wallet list and to no other user's |
| `Queries.EntriesOfWallet` | src/db/repositories.py:42 | the `WHERE wallet_id = w` selection: exactly the entries of wallet w, and none when it has no entries |
| `Queries.Balance` | src/db/repositories.py:41-43 | `get_balance` is the sum of the amounts of the wallet's entries, and 0 (the coalesce) when the wallet has no entries |
| `Queries.BalanceCons` | src/db/repositories.py:42 | the balance of a table is the first entry's amount, counted when it belongs to the wallet, plus the balance of the remaining entries |
| `Queries.BalanceAppend` | src/db/repositories.py:42 | appending an entry raises its own wallet's balance by its amount and changes no other wallet's balance |
| `Queries.InsertByCreatedAt` | src/db/repositories.py:78 | inserting into a list ordered by `created_at` keeps it ordered and adds exactly that entry |
| `Queries.SortByCreatedAt` | src/db/repositories.py:78 | `order_by(created_at)` yields a non-decreasing `created_at` order that is a permutation of its input |
| `Queries.History` | src/db/repositories.py:77-79 | `get_all_for_wallet` returns a permutation of exactly the entries with that `wallet_id`, in non-decreasing `created_at` order |
| `Queries.EntriesWithoutOne` | src/db/repositories.py:74-75 | with unique keys, deleting a stored entry removes exactly one row |
| `Queries.BalanceWithout` | src/db/repositories.py:74-75 | deleting a stored entry lowers its wallet's balance by its amount and changes no other wallet's balance |
| `Queries.SumInsert` | src/db/repositories.py:78 | inserting an entry into the ordered history adds exactly its amount to the history's sum |
| `Queries.SumSort` | src/db/repositories.py:78 | ordering entries by `created_at` does not change the sum of their amounts |
| `Queries.HistorySumIsBalance` | src/db/repositories.py:41-43 | the balance equals the sum of the amounts in the wallet's ordered history |
| `Updates.AddUser` | src/db/models.py:14-18 | adding a user succeeds exactly when its email and password hash hold no U+0000 and its id and its email are both new (else NulCharacter, DuplicateKey, then DuplicateEmail); it appends the row, keeps every rule, and `get` then returns it and is unchanged for other ids |
| `Updates.AddWallet` | src/db/models.py:28-32 | adding a wallet succeeds exactly when the currency holds no U+0000 and fits CHAR(3), the id is new and the owner is a stored user (else NulCharacter, ValueTooLong, DuplicateKey, ForeignKeyViolation); it keeps every rule, stores the padded currency, and appends the wallet to its owner's wallets |
| `Updates.AppendWalletConsistent` | src/db/models.py:30-32 | a wallet with a new id, a 3-character currency without U+0000 and a stored owner can be appended without breaking any rule, and is then found by its id |
| `Updates.AddTransaction` | src/db/models.py:46-50 | adding a transaction succeeds exactly when its type and status hold no U+0000 and its id is new (else NulCharacter, DuplicateKey); it keeps every rule and is then found by its id |
| `Updates.AddEntry` | src/db/models.py:60-68 | adding an entry succeeds exactly when the amount fits NUMERIC(18, 2), the id is new and both its wallet and its transaction are stored (else NumericOverflow, DuplicateKey, ForeignKeyViolation); it appends the row and keeps every rule |
| `Updates.BalanceAfterAddEntry` | src/db/repositories.py:71-72 | an accepted ledger entry raises its wallet's balance by its amount and leaves every other balance unchanged |
| `Updates.DeleteUser` | src/db/models.py:22-30 | deleting a user fails with NotPersisted for an unknown id, and with StillReferenced when an entry refers to one of its wallets; otherwise it removes the user and every wallet it owns (cascade), nothing else, and keeps every rule |
| `Updates.WithoutUser` | src/db/models.py:22 | the cascade removes exactly the user and the wallets whose `user_id` is that user, and leaves transactions and entries as they were |
| `Updates.WithoutUserConsistent` | src/db/models.py:30 | when no entry refers to the user's wallets, the cascade keeps every rule, the user is no longer found, and no wallet of the user remains |
| `Updates.DeleteWallet` | src/db/models.py:62-63 | deleting a wallet fails with NotPersisted for an unknown id and with StillReferenced while an entry refers to it (its NOT NULL, RESTRICT foreign key); otherwise only that wallet is removed and every rule still holds |
| `Updates.DeleteTransaction` | src/db/models.py:65-66 | deleting a transaction fails with NotPersisted for an unknown id and with StillReferenced while an entry refers to it (its NOT NULL, RESTRICT foreign key); otherwise only that transaction is removed and every rule still holds |
| `Updates.DeleteEntry` | src/db/repositories.py:74-75 | deleting an entry fails with NotPersisted for an unknown id; otherwise exactly that one row is removed, the other tables are unchanged and every rule still holds |
| `Updates.BalanceAfterDeleteEntry` | src/db/repositories.py:74-75 | deleting a stored entry succeeds, lowers its wallet's balance by its amount and leaves every other balance unchanged |
| `Repositories.Session.constructor` | src/db/models.py:11-75 | the store's initial state: four empty tables, which satisfy every rule of the schema |
| `Repositories.UserRepository.constructor` | src/db/repositories.py:9-10 | the repository works on the session it is given |
| `Repositories.WalletRepository.constructor` | src/db/repositories.py:29-30 | the repository works on the session it is given |
| `Repositories.TransactionRepository.constructor` | src/db/repositories.py:54-55 | the repository works on the session it is given |
| `Repositories.LedgerEntryRepository.constructor` | src/db/repositories.py:68-69 | the repository works on the session it is given |
| `Repositories.UserRepository.Add` | src/db/repositories.py:12-13 | changes the session exactly as `AddUser` says and keeps every rule; after success both `get` and `get_by_email` return the new user |
| `Repositories.UserRepository.Delete` | src/db/repositories.py:24-25 | changes the session exactly as `DeleteUser` says; after success the user and all its wallets are gone; after a refusal nothing changed |
| `Repositories.WalletRepository.Add` | src/db/repositories.py:32-33 | changes the session exactly as `AddWallet` says; after success `get_by_id` returns the stored wallet, and no balance changed |
| `Repositories.WalletRepository.Delete` | src/db/repositories.py:49-50 | changes the session exactly as `DeleteWallet` says; after success the wallet is not found; after a refusal nothing changed |
| `Repositories.TransactionRepository.Add` | src/db/repositories.py:57-58 | changes the session exactly as `AddTransaction` says; after success `get_by_id` returns the transaction |
| `Repositories.TransactionRepository.Delete` | src/db/repositories.py:63-64 | changes the session exactly as `DeleteTransaction` says; after success the transaction is not found; after a refusal nothing changed |
| `Repositories.LedgerEntryRepository.Add` | src/db/repositories.py:71-72 | changes the session exactly as `AddEntry` says; after success the entry's wallet's balance rose by its amount, every other balance is unchanged, and the entry is in its wallet's history |
| `Repositories.LedgerEntryRepository.Delete` | src/db/repositories.py:74-75 | changes the session exactly as `DeleteEntry` says; after success the deleted entry's wallet's balance fell by its amount and every other balance is unchanged |

## Left out

- `get_all_users` and `get_all_wallets` (src/db/repositories.py:21-22, 38-39) have no member of their own:
  each returns a whole table, which is the session's `users` or `wallets` sequence itself, in insertion
  order. `SELECT` without `ORDER BY` promises no order.
- Queries.WalletsOfUser: returns the owner's wallets in insertion order, but src/db/repositories.py:46 has
  no `ORDER BY`, so the database promises only the set of wallets. The order stated by
  `Queries.WalletsOfUserAppend` and by the last `ensures` of `Updates.AddWallet` (a new wallet comes last)
  is the model's choice; the membership they state is what the source guarantees.
- Flushing, committing and rolling back a session, lazy loading, `expire_on_commit`, and how the
  database checks its constraints. Each call is applied to the store at once.
  The order in which the model reports violated constraints is a modelling choice.
- Adding a row object that the session already holds is an update in SQLAlchemy. It is not modelled:
  `add` is always an insert.
- Adding a user together with wallets attached to its `wallets` list, which the ORM's save cascade
  would also insert. Rows are flat values here.
- Generating ids with `uuid4` and timestamps with `datetime.now`: both are taken as parameters.
- Rounding of amounts with more than two decimals to NUMERIC(18, 2): amounts arrive as whole cents.
- `password_hash` is opaque text. Password hashing is not part of this core.
- Isolation levels, locking and concurrent sessions.
- The blank-insensitive comparison PostgreSQL applies to CHAR(n) values: the model compares stored
  currencies as plain strings.
- `src/config.py` (settings and the connection URL) and `src/db/session.py` (engine and session
  factory): configuration and connection plumbing with no ledger logic.
