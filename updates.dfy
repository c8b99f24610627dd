/**
 * The writes of the repositories, `add` and `delete` on each table, as
 * functions from the tables before the call to the tables after it or the
 * error the store raises. Each one keeps every integrity rule of the schema:
 * a write that would break one is refused and changes nothing.
 */
module Updates {
  import opened Wrappers
  import opened Seqs
  import opened Models
  import opened Queries

  /** The tables after a write: the new ones when it was accepted, the old ones when it was refused. */
  function Settle(t: Tables, r: Result<Tables, DbError>): Tables {
    if r.Success? then r.value else t
  }

  /** What a write reports to its caller. */
  function Status(r: Result<Tables, DbError>): Outcome<DbError> {
    if r.Success? then Pass else Fail(r.error)
  }

  /** A user's text columns can be stored. */
  predicate UserTextFits(u: User) {
    FitsTextColumn(u.email) && FitsTextColumn(u.passwordHash)
  }

  /**
   * `UserRepository.add`: inserts a user. Its email and password hash must be
   * storable text, and its primary key and its email must both be new.
   */
  function AddUser(t: Tables, u: User): (r: Result<Tables, DbError>)
    requires Consistent(t)
    ensures r.Success? <==> UserTextFits(u) && !HasUser(t.users, u.id) && !EmailTaken(t.users, u.email)
    ensures !UserTextFits(u) ==> r == Failure(NulCharacter)
    ensures UserTextFits(u) && HasUser(t.users, u.id) ==> r == Failure(DuplicateKey)
    ensures UserTextFits(u) && !HasUser(t.users, u.id) && EmailTaken(t.users, u.email) ==> r == Failure(DuplicateEmail)
    ensures r.Success? ==> r.value == t.(users := t.users + [u])
    ensures r.Success? ==> Consistent(r.value)
    ensures r.Success? ==> UserById(r.value.users, u.id) == Some(u)
    ensures r.Success? ==> forall id :: id != u.id ==> UserById(r.value.users, id) == UserById(t.users, id)
  {
    if !UserTextFits(u) then Failure(NulCharacter)
    else if HasUser(t.users, u.id) then Failure(DuplicateKey)
    else if EmailTaken(t.users, u.email) then Failure(DuplicateEmail)
    else
      KeysDistinctAppend(t.users, UserKey, u);
      KeysDistinctAppend(t.users, EmailKey, u);
      Success(t.(users := t.users + [u]))
  }

  /** The row a wallet becomes once its currency is stored in the CHAR(3) column. */
  function StoredWallet(w: Wallet): Wallet
    requires StoreFixedChar(w.currency, CurrencyWidth).Some?
  {
    w.(currency := StoreFixedChar(w.currency, CurrencyWidth).value)
  }

  /**
   * `WalletRepository.add`: inserts a wallet. The currency must be storable
   * text that fits CHAR(3), the primary key must be new and the owner must be
   * a stored user.
   */
  function AddWallet(t: Tables, w: Wallet): (r: Result<Tables, DbError>)
    requires Consistent(t)
    ensures r.Success? <==>
              && FitsTextColumn(w.currency)
              && StoreFixedChar(w.currency, CurrencyWidth).Some?
              && !HasWallet(t.wallets, w.id)
              && HasUser(t.users, w.userId)
    ensures !FitsTextColumn(w.currency) ==> r == Failure(NulCharacter)
    ensures FitsTextColumn(w.currency) && StoreFixedChar(w.currency, CurrencyWidth).None? ==> r == Failure(ValueTooLong)
    ensures (FitsTextColumn(w.currency) && StoreFixedChar(w.currency, CurrencyWidth).Some? && HasWallet(t.wallets, w.id))
              ==> r == Failure(DuplicateKey)
    ensures (&& FitsTextColumn(w.currency)
             && StoreFixedChar(w.currency, CurrencyWidth).Some?
             && !HasWallet(t.wallets, w.id)
             && !HasUser(t.users, w.userId))
              ==> r == Failure(ForeignKeyViolation)
    ensures r.Success? ==> r.value == t.(wallets := t.wallets + [StoredWallet(w)])
    ensures r.Success? ==> Consistent(r.value)
    ensures r.Success? ==> WalletById(r.value.wallets, w.id) == Some(StoredWallet(w))
    ensures r.Success? ==> WalletsOfUser(r.value.wallets, w.userId) == WalletsOfUser(t.wallets, w.userId) + [StoredWallet(w)]
  {
    if !FitsTextColumn(w.currency) then Failure(NulCharacter)
    else if StoreFixedChar(w.currency, CurrencyWidth).None? then Failure(ValueTooLong)
    else if HasWallet(t.wallets, w.id) then Failure(DuplicateKey)
    else if !HasUser(t.users, w.userId) then Failure(ForeignKeyViolation)
    else
      AppendWalletConsistent(t, StoredWallet(w));
      WalletsOfUserAppend(t.wallets, StoredWallet(w), w.userId);
      Success(t.(wallets := t.wallets + [StoredWallet(w)]))
  }

  /** Helper: appending a well-formed wallet with a new key and a stored owner keeps the tables consistent. */
  lemma AppendWalletConsistent(t: Tables, w: Wallet)
    requires Consistent(t)
    requires |w.currency| == CurrencyWidth && FitsTextColumn(w.currency)
    requires !HasWallet(t.wallets, w.id) && HasUser(t.users, w.userId)
    ensures Consistent(t.(wallets := t.wallets + [w]))
    ensures WalletById(t.wallets + [w], w.id) == Some(w)
  {
  }

  /** A transaction's text columns can be stored. */
  predicate TransactionTextFits(x: Transaction) {
    FitsTextColumn(x.kind) && FitsTextColumn(x.status)
  }

  /**
   * `TransactionRepository.add`: inserts a transaction. Its type and status
   * must be storable text and its primary key must be new.
   */
  function AddTransaction(t: Tables, x: Transaction): (r: Result<Tables, DbError>)
    requires Consistent(t)
    ensures r.Success? <==> TransactionTextFits(x) && !HasTransaction(t.transactions, x.id)
    ensures !TransactionTextFits(x) ==> r == Failure(NulCharacter)
    ensures TransactionTextFits(x) && HasTransaction(t.transactions, x.id) ==> r == Failure(DuplicateKey)
    ensures r.Success? ==> r.value == t.(transactions := t.transactions + [x])
    ensures r.Success? ==> Consistent(r.value)
    ensures r.Success? ==> TransactionById(r.value.transactions, x.id) == Some(x)
  {
    if !TransactionTextFits(x) then Failure(NulCharacter)
    else if HasTransaction(t.transactions, x.id) then Failure(DuplicateKey)
    else
      KeysDistinctAppend(t.transactions, TransactionKey, x);
      Success(t.(transactions := t.transactions + [x]))
  }

  /**
   * `LedgerEntryRepository.add`: inserts a ledger entry. The amount must fit
   * NUMERIC(18, 2), the primary key must be new, and the wallet and the
   * transaction it refers to must both be stored.
   */
  function AddEntry(t: Tables, e: LedgerEntry): (r: Result<Tables, DbError>)
    requires Consistent(t)
    ensures r.Success? <==>
              && FitsAmountColumn(e.amount)
              && !HasEntry(t.entries, e.id)
              && HasWallet(t.wallets, e.walletId)
              && HasTransaction(t.transactions, e.transactionId)
    ensures !FitsAmountColumn(e.amount) ==> r == Failure(NumericOverflow)
    ensures FitsAmountColumn(e.amount) && HasEntry(t.entries, e.id) ==> r == Failure(DuplicateKey)
    ensures (&& FitsAmountColumn(e.amount)
             && !HasEntry(t.entries, e.id)
             && !(HasWallet(t.wallets, e.walletId) && HasTransaction(t.transactions, e.transactionId)))
              ==> r == Failure(ForeignKeyViolation)
    ensures r.Success? ==> r.value == t.(entries := t.entries + [e])
    ensures r.Success? ==> Consistent(r.value)
  {
    if !FitsAmountColumn(e.amount) then Failure(NumericOverflow)
    else if HasEntry(t.entries, e.id) then Failure(DuplicateKey)
    else if !HasWallet(t.wallets, e.walletId) || !HasTransaction(t.transactions, e.transactionId) then
      Failure(ForeignKeyViolation)
    else
      KeysDistinctAppend(t.entries, EntryKey, e);
      Success(t.(entries := t.entries + [e]))
  }

  /** Adding a ledger entry raises its wallet's balance by its amount and leaves every other balance as it was. */
  lemma BalanceAfterAddEntry(t: Tables, e: LedgerEntry, walletId: Id)
    requires Consistent(t)
    requires AddEntry(t, e).Success?
    ensures Balance(AddEntry(t, e).value.entries, walletId) == Balance(t.entries, walletId) + Share(e, walletId)
  {
    BalanceAppend(t.entries, e, walletId);
  }

  // Deletes.

  /** Some ledger entry refers to a wallet owned by user `userId`. */
  predicate UserWalletsReferenced(t: Tables, userId: Id) {
    exists w, e :: w in t.wallets && e in t.entries && w.userId == userId && e.walletId == w.id
  }

  /** Some ledger entry refers to wallet `walletId`. */
  predicate WalletReferenced(t: Tables, walletId: Id) {
    exists e :: e in t.entries && e.walletId == walletId
  }

  /** Some ledger entry refers to transaction `transactionId`. */
  predicate TransactionReferenced(t: Tables, transactionId: Id) {
    exists e :: e in t.entries && e.transactionId == transactionId
  }

  /**
   * `UserRepository.delete_user`: deletes a user and, by cascade, every
   * wallet it owns. Refused when one of those wallets still has ledger
   * entries: their foreign key to the wallet can be neither cleared (NOT
   * NULL) nor left dangling (RESTRICT).
   */
  function DeleteUser(t: Tables, id: Id): (r: Result<Tables, DbError>)
    requires Consistent(t)
    ensures r.Success? <==> HasUser(t.users, id) && !UserWalletsReferenced(t, id)
    ensures !HasUser(t.users, id) ==> r == Failure(NotPersisted)
    ensures HasUser(t.users, id) && UserWalletsReferenced(t, id) ==> r == Failure(StillReferenced)
    ensures r.Success? ==>
              && (forall u :: u in r.value.users <==> u in t.users && u.id != id)
              && (forall w :: w in r.value.wallets <==> w in t.wallets && w.userId != id)
              && r.value.transactions == t.transactions
              && r.value.entries == t.entries
    ensures r.Success? ==> Consistent(r.value)
    ensures r.Success? ==> UserById(r.value.users, id) == None && WalletsOfUser(r.value.wallets, id) == []
  {
    if !HasUser(t.users, id) then Failure(NotPersisted)
    else if UserWalletsReferenced(t, id) then Failure(StillReferenced)
    else
      WithoutUserConsistent(t, id);
      Success(WithoutUser(t, id))
  }

  /** Helper: the tables without user `id` and without the wallets it owns (the cascade). */
  function WithoutUser(t: Tables, id: Id): (r: Tables)
    ensures forall u :: u in r.users <==> u in t.users && u.id != id
    ensures forall w :: w in r.wallets <==> w in t.wallets && w.userId != id
    ensures r.transactions == t.transactions && r.entries == t.entries
  {
    t.(users := WithoutKey(t.users, UserKey, id), wallets := WithoutKey(t.wallets, OwnerKey, id))
  }

  /** Helper: the cascade keeps the tables consistent when no ledger entry refers to the deleted wallets. */
  lemma WithoutUserConsistent(t: Tables, id: Id)
    requires Consistent(t)
    requires !UserWalletsReferenced(t, id)
    ensures Consistent(WithoutUser(t, id))
    ensures UserById(WithoutUser(t, id).users, id) == None
    ensures WalletsOfUser(WithoutUser(t, id).wallets, id) == []
  {
    WithoutKeyDistinct(t.users, UserKey, id, UserKey);
    WithoutKeyDistinct(t.users, UserKey, id, EmailKey);
    WithoutKeyDistinct(t.wallets, OwnerKey, id, WalletKey);
  }

  /** `WalletRepository.delete_wallet`: deletes a wallet; refused while ledger entries refer to it. */
  function DeleteWallet(t: Tables, id: Id): (r: Result<Tables, DbError>)
    requires Consistent(t)
    ensures r.Success? <==> HasWallet(t.wallets, id) && !WalletReferenced(t, id)
    ensures !HasWallet(t.wallets, id) ==> r == Failure(NotPersisted)
    ensures HasWallet(t.wallets, id) && WalletReferenced(t, id) ==> r == Failure(StillReferenced)
    ensures r.Success? ==>
              && (forall w :: w in r.value.wallets <==> w in t.wallets && w.id != id)
              && r.value.users == t.users
              && r.value.transactions == t.transactions
              && r.value.entries == t.entries
    ensures r.Success? ==> Consistent(r.value)
    ensures r.Success? ==> WalletById(r.value.wallets, id) == None
  {
    if !HasWallet(t.wallets, id) then Failure(NotPersisted)
    else if WalletReferenced(t, id) then Failure(StillReferenced)
    else
      var t' := t.(wallets := WithoutKey(t.wallets, WalletKey, id));
      WithoutKeyDistinct(t.wallets, WalletKey, id, WalletKey);
      assert forall e :: e in t'.entries ==> HasWallet(t'.wallets, e.walletId) by {
        forall e | e in t'.entries ensures HasWallet(t'.wallets, e.walletId) {
          var w :| w in t.wallets && w.id == e.walletId;
          assert w in t'.wallets;
        }
      }
      Success(t')
  }

  /** `TransactionRepository.delete_transaction`: deletes a transaction; refused while ledger entries refer to it. */
  function DeleteTransaction(t: Tables, id: Id): (r: Result<Tables, DbError>)
    requires Consistent(t)
    ensures r.Success? <==> HasTransaction(t.transactions, id) && !TransactionReferenced(t, id)
    ensures !HasTransaction(t.transactions, id) ==> r == Failure(NotPersisted)
    ensures HasTransaction(t.transactions, id) && TransactionReferenced(t, id) ==> r == Failure(StillReferenced)
    ensures r.Success? ==>
              && (forall x :: x in r.value.transactions <==> x in t.transactions && x.id != id)
              && r.value.users == t.users
              && r.value.wallets == t.wallets
              && r.value.entries == t.entries
    ensures r.Success? ==> Consistent(r.value)
    ensures r.Success? ==> TransactionById(r.value.transactions, id) == None
  {
    if !HasTransaction(t.transactions, id) then Failure(NotPersisted)
    else if TransactionReferenced(t, id) then Failure(StillReferenced)
    else
      var t' := t.(transactions := WithoutKey(t.transactions, TransactionKey, id));
      WithoutKeyDistinct(t.transactions, TransactionKey, id, TransactionKey);
      assert forall e :: e in t'.entries ==> HasTransaction(t'.transactions, e.transactionId) by {
        forall e | e in t'.entries ensures HasTransaction(t'.transactions, e.transactionId) {
          var x :| x in t.transactions && x.id == e.transactionId;
          assert x in t'.transactions;
        }
      }
      Success(t')
  }

  /** `LedgerEntryRepository.delete_ledger_entry`: deletes one ledger entry and nothing else. */
  function DeleteEntry(t: Tables, id: Id): (r: Result<Tables, DbError>)
    requires Consistent(t)
    ensures r.Success? <==> HasEntry(t.entries, id)
    ensures r.Failure? ==> r.error == NotPersisted
    ensures r.Success? ==>
              && (forall e :: e in r.value.entries <==> e in t.entries && e.id != id)
              && |r.value.entries| == |t.entries| - 1
              && r.value.users == t.users
              && r.value.wallets == t.wallets
              && r.value.transactions == t.transactions
    ensures r.Success? ==> Consistent(r.value)
  {
    if !HasEntry(t.entries, id) then Failure(NotPersisted)
    else
      var e :| e in t.entries && e.id == id;
      EntriesWithoutOne(t.entries, e);
      WithoutKeyDistinct(t.entries, EntryKey, id, EntryKey);
      Success(t.(entries := WithoutKey(t.entries, EntryKey, id)))
  }

  /** Deleting a ledger entry lowers its wallet's balance by its amount and leaves every other balance as it was. */
  lemma BalanceAfterDeleteEntry(t: Tables, e: LedgerEntry, walletId: Id)
    requires Consistent(t)
    requires e in t.entries
    ensures DeleteEntry(t, e.id).Success?
    ensures Balance(DeleteEntry(t, e.id).value.entries, walletId) == Balance(t.entries, walletId) - Share(e, walletId)
  {
    BalanceWithout(t.entries, e, walletId);
  }
}
