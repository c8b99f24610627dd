/**
 * The repositories of the wallet service. All four share one session: the
 * unit of work that holds the store's tables and whose contents their
 * `add` and `delete` methods change in place. Each write takes effect at
 * once; flushing and committing are not modelled.
 */
module Repositories {
  import opened Wrappers
  import opened Models
  import opened Queries
  import opened Updates

  /** The shared unit of work: the four tables of the store. */
  class Session {
    var users: seq<User>
    var wallets: seq<Wallet>
    var transactions: seq<Transaction>
    var entries: seq<LedgerEntry>

    /** The store's contents as one value. */
    function Contents(): Tables
      reads this
    {
      Tables(users, wallets, transactions, entries)
    }

    /** The schema's integrity rules hold for the tables. */
    ghost predicate Valid()
      reads this
    {
      Consistent(Contents())
    }

    /** A session over an empty store. */
    constructor ()
      ensures Valid()
      ensures Contents() == EmptyTables
    {
      users, wallets, transactions, entries := [], [], [], [];
    }

    /** Replaces the tables with the result of an accepted write and reports the write's outcome. */
    method Apply(r: Result<Tables, DbError>) returns (outcome: Outcome<DbError>)
      modifies this
      ensures outcome == Status(r)
      ensures Contents() == Settle(old(Contents()), r)
    {
      if r.Success? {
        users, wallets, transactions, entries := r.value.users, r.value.wallets, r.value.transactions, r.value.entries;
        outcome := Pass;
      } else {
        outcome := Fail(r.error);
      }
    }
  }

  class UserRepository {
    const session: Session

    /** A repository working on `session`. */
    constructor (session: Session)
      ensures this.session == session
    {
      this.session := session;
    }

    /** Inserts `user`; refused with NulCharacter, DuplicateKey or DuplicateEmail, leaving the store as it was. */
    method Add(user: User) returns (outcome: Outcome<DbError>)
      requires session.Valid()
      modifies session
      ensures session.Valid()
      ensures outcome == Status(AddUser(old(session.Contents()), user))
      ensures session.Contents() == Settle(old(session.Contents()), AddUser(old(session.Contents()), user))
      ensures outcome.Pass? ==> UserById(session.users, user.id) == Some(user)
      ensures outcome.Pass? ==> UserByEmail(session.users, user.email) == Some(user)
    {
      outcome := session.Apply(AddUser(session.Contents(), user));
    }

    /**
     * Deletes the user with primary key `userId` together with the wallets it
     * owns; refused while ledger entries refer to one of those wallets.
     */
    method Delete(userId: Id) returns (outcome: Outcome<DbError>)
      requires session.Valid()
      modifies session
      ensures session.Valid()
      ensures outcome == Status(DeleteUser(old(session.Contents()), userId))
      ensures session.Contents() == Settle(old(session.Contents()), DeleteUser(old(session.Contents()), userId))
      ensures outcome.Pass? ==> UserById(session.users, userId) == None && WalletsOfUser(session.wallets, userId) == []
      ensures outcome.Fail? ==> session.Contents() == old(session.Contents())
    {
      outcome := session.Apply(DeleteUser(session.Contents(), userId));
    }
  }

  class WalletRepository {
    const session: Session

    /** A repository working on `session`. */
    constructor (session: Session)
      ensures this.session == session
    {
      this.session := session;
    }

    /**
     * Inserts `wallet`, its currency padded to CHAR(3); refused with
     * NulCharacter, ValueTooLong, DuplicateKey or ForeignKeyViolation.
     */
    method Add(wallet: Wallet) returns (outcome: Outcome<DbError>)
      requires session.Valid()
      modifies session
      ensures session.Valid()
      ensures outcome == Status(AddWallet(old(session.Contents()), wallet))
      ensures session.Contents() == Settle(old(session.Contents()), AddWallet(old(session.Contents()), wallet))
      ensures outcome.Pass? ==> WalletById(session.wallets, wallet.id) == Some(StoredWallet(wallet))
      ensures outcome.Pass? ==> forall w :: Balance(session.entries, w) == Balance(old(session.entries), w)
    {
      outcome := session.Apply(AddWallet(session.Contents(), wallet));
    }

    /** Deletes the wallet with primary key `walletId`; refused while ledger entries refer to it. */
    method Delete(walletId: Id) returns (outcome: Outcome<DbError>)
      requires session.Valid()
      modifies session
      ensures session.Valid()
      ensures outcome == Status(DeleteWallet(old(session.Contents()), walletId))
      ensures session.Contents() == Settle(old(session.Contents()), DeleteWallet(old(session.Contents()), walletId))
      ensures outcome.Pass? ==> WalletById(session.wallets, walletId) == None
      ensures outcome.Fail? ==> session.Contents() == old(session.Contents())
    {
      outcome := session.Apply(DeleteWallet(session.Contents(), walletId));
    }
  }

  class TransactionRepository {
    const session: Session

    /** A repository working on `session`. */
    constructor (session: Session)
      ensures this.session == session
    {
      this.session := session;
    }

    /** Inserts `transaction`; refused with NulCharacter or DuplicateKey. */
    method Add(transaction: Transaction) returns (outcome: Outcome<DbError>)
      requires session.Valid()
      modifies session
      ensures session.Valid()
      ensures outcome == Status(AddTransaction(old(session.Contents()), transaction))
      ensures session.Contents() == Settle(old(session.Contents()), AddTransaction(old(session.Contents()), transaction))
      ensures outcome.Pass? ==> TransactionById(session.transactions, transaction.id) == Some(transaction)
    {
      outcome := session.Apply(AddTransaction(session.Contents(), transaction));
    }

    /** Deletes the transaction with primary key `transactionId`; refused while ledger entries refer to it. */
    method Delete(transactionId: Id) returns (outcome: Outcome<DbError>)
      requires session.Valid()
      modifies session
      ensures session.Valid()
      ensures outcome == Status(DeleteTransaction(old(session.Contents()), transactionId))
      ensures session.Contents() == Settle(old(session.Contents()), DeleteTransaction(old(session.Contents()), transactionId))
      ensures outcome.Pass? ==> TransactionById(session.transactions, transactionId) == None
      ensures outcome.Fail? ==> session.Contents() == old(session.Contents())
    {
      outcome := session.Apply(DeleteTransaction(session.Contents(), transactionId));
    }
  }

  class LedgerEntryRepository {
    const session: Session

    /** A repository working on `session`. */
    constructor (session: Session)
      ensures this.session == session
    {
      this.session := session;
    }

    /**
     * Inserts `entry`; refused with NumericOverflow, DuplicateKey or
     * ForeignKeyViolation. When accepted, the entry's wallet's balance rises
     * by its amount and no other balance changes.
     */
    method Add(entry: LedgerEntry) returns (outcome: Outcome<DbError>)
      requires session.Valid()
      modifies session
      ensures session.Valid()
      ensures outcome == Status(AddEntry(old(session.Contents()), entry))
      ensures session.Contents() == Settle(old(session.Contents()), AddEntry(old(session.Contents()), entry))
      ensures outcome.Pass? ==> Balance(session.entries, entry.walletId) == old(Balance(session.entries, entry.walletId)) + entry.amount
      ensures outcome.Pass? ==>
                forall w :: w != entry.walletId ==> Balance(session.entries, w) == old(Balance(session.entries, w))
      ensures outcome.Pass? ==> entry in History(session.entries, entry.walletId)
    {
      ghost var before := session.Contents();
      outcome := session.Apply(AddEntry(session.Contents(), entry));
      if outcome.Pass? {
        forall w ensures Balance(session.entries, w) == Balance(before.entries, w) + Share(entry, w) {
          BalanceAfterAddEntry(before, entry, w);
        }
      }
    }

    /**
     * Deletes the ledger entry with primary key `entryId`; refused with
     * NotPersisted when there is none. When accepted, that entry alone is
     * gone and its wallet's balance falls by its amount.
     */
    method Delete(entryId: Id) returns (outcome: Outcome<DbError>)
      requires session.Valid()
      modifies session
      ensures session.Valid()
      ensures outcome == Status(DeleteEntry(old(session.Contents()), entryId))
      ensures session.Contents() == Settle(old(session.Contents()), DeleteEntry(old(session.Contents()), entryId))
      ensures outcome.Pass? ==>
                forall e :: e in old(session.entries) && e.id == entryId ==>
                  forall w :: Balance(session.entries, w) == old(Balance(session.entries, w)) - Share(e, w)
    {
      ghost var before := session.Contents();
      outcome := session.Apply(DeleteEntry(session.Contents(), entryId));
      if outcome.Pass? {
        forall e, w | e in before.entries && e.id == entryId
          ensures Balance(session.entries, w) == Balance(before.entries, w) - Share(e, w)
        {
          BalanceAfterDeleteEntry(before, e, w);
        }
      }
    }
  }
}
