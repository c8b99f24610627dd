/**
 * The read-only queries of the repositories: lookups by primary key and by
 * email, the wallets of a user, a wallet's ledger entries in order of
 * creation, and a wallet's balance derived from its entries.
 */
module Queries {
  import opened Wrappers
  import opened Seqs
  import opened Models

  /** `UserRepository.get`: the user whose primary key is `id`, if there is one. */
  function UserById(users: seq<User>, id: Id): (r: Option<User>)
    ensures r.None? <==> !HasUser(users, id)
    ensures r.Some? ==> r.value in users && r.value.id == id
    ensures UsersValid(users) ==> forall u :: u in users && u.id == id ==> r == Some(u)
  {
    var r := FindFirst(users, (u: User) => u.id == id);
    assert UsersValid(users) ==> forall u :: u in users && u.id == id ==> r == Some(u) by {
      if UsersValid(users) {
        forall u | u in users && u.id == id ensures r == Some(u) {
          KeysDistinctSame(users, UserKey, u, r.value);
        }
      }
    }
    r
  }

  /**
   * `UserRepository.get_by_email`: the user with exactly this email, or
   * None. Email is a unique column, so there is never more than one.
   */
  function UserByEmail(users: seq<User>, email: string): (r: Option<User>)
    ensures r.None? <==> !EmailTaken(users, email)
    ensures r.Some? ==> r.value in users && r.value.email == email
    ensures UsersValid(users) ==> forall u :: u in users && u.email == email ==> r == Some(u)
  {
    var r := FindFirst(users, (u: User) => u.email == email);
    assert UsersValid(users) ==> forall u :: u in users && u.email == email ==> r == Some(u) by {
      if UsersValid(users) {
        forall u | u in users && u.email == email ensures r == Some(u) {
          KeysDistinctSame(users, EmailKey, u, r.value);
        }
      }
    }
    r
  }

  /** `WalletRepository.get_by_id`: the wallet whose primary key is `id`, if there is one. */
  function WalletById(wallets: seq<Wallet>, id: Id): (r: Option<Wallet>)
    ensures r.None? <==> !HasWallet(wallets, id)
    ensures r.Some? ==> r.value in wallets && r.value.id == id
    ensures KeysDistinct(wallets, WalletKey) ==> forall w :: w in wallets && w.id == id ==> r == Some(w)
  {
    var r := FindFirst(wallets, (w: Wallet) => w.id == id);
    assert KeysDistinct(wallets, WalletKey) ==> forall w :: w in wallets && w.id == id ==> r == Some(w) by {
      if KeysDistinct(wallets, WalletKey) {
        forall w | w in wallets && w.id == id ensures r == Some(w) {
          KeysDistinctSame(wallets, WalletKey, w, r.value);
        }
      }
    }
    r
  }

  /** `TransactionRepository.get_by_id`: the transaction whose primary key is `id`, if there is one. */
  function TransactionById(transactions: seq<Transaction>, id: Id): (r: Option<Transaction>)
    ensures r.None? <==> !HasTransaction(transactions, id)
    ensures r.Some? ==> r.value in transactions && r.value.id == id
    ensures TransactionsValid(transactions) ==> forall x :: x in transactions && x.id == id ==> r == Some(x)
  {
    var r := FindFirst(transactions, (x: Transaction) => x.id == id);
    assert TransactionsValid(transactions) ==> forall x :: x in transactions && x.id == id ==> r == Some(x) by {
      if TransactionsValid(transactions) {
        forall x | x in transactions && x.id == id ensures r == Some(x) {
          KeysDistinctSame(transactions, TransactionKey, x, r.value);
        }
      }
    }
    r
  }

  /** `WalletRepository.get_all_wallets_of_user`: exactly the wallets whose `user_id` is `userId`. */
  function WalletsOfUser(wallets: seq<Wallet>, userId: Id): (r: seq<Wallet>)
    ensures forall w :: w in r <==> w in wallets && w.userId == userId
    ensures (forall w :: w in wallets ==> w.userId != userId) ==> r == []
    ensures KeysDistinct(wallets, WalletKey) ==> KeysDistinct(r, WalletKey)
  {
    KeysDistinctFilterWhenDistinct(wallets, OwnedBy(userId), WalletKey);
    Filter(wallets, OwnedBy(userId))
  }

  /** Helper: the selection condition of `WalletsOfUser`. */
  function OwnedBy(userId: Id): Wallet -> bool {
    (w: Wallet) => w.userId == userId
  }

  /** A wallet appended to the table is appended to its owner's wallets and to no one else's. */
  lemma WalletsOfUserAppend(wallets: seq<Wallet>, w: Wallet, userId: Id)
    ensures WalletsOfUser(wallets + [w], userId) ==
              WalletsOfUser(wallets, userId) + (if w.userId == userId then [w] else [])
  {
    FilterAppend(wallets, [w], OwnedBy(userId));
    assert [w][1..] == [];
  }

  /** The ledger entries whose `wallet_id` is `walletId`, in table order. */
  function EntriesOfWallet(entries: seq<LedgerEntry>, walletId: Id): (r: seq<LedgerEntry>)
    ensures forall e :: e in r <==> e in entries && e.walletId == walletId
    ensures (forall e :: e in entries ==> e.walletId != walletId) ==> r == []
  {
    Filter(entries, (e: LedgerEntry) => e.walletId == walletId)
  }

  /** Helper: the sum of the amounts of `entries`. */
  function Sum(entries: seq<LedgerEntry>): Cents {
    if entries == [] then 0 else entries[0].amount + Sum(entries[1..])
  }

  /**
   * `WalletRepository.get_balance`: the sum of the amounts of the wallet's
   * ledger entries, coalesced to 0 when it has none.
   */
  function Balance(entries: seq<LedgerEntry>, walletId: Id): (r: Cents)
    ensures (forall e :: e in entries ==> e.walletId != walletId) ==> r == 0
  {
    Sum(EntriesOfWallet(entries, walletId))
  }

  /** What entry `e` adds to the balance of wallet `walletId`. */
  function Share(e: LedgerEntry, walletId: Id): Cents {
    if e.walletId == walletId then e.amount else 0
  }

  ghost predicate SortedByCreatedAt(s: seq<LedgerEntry>) {
    forall i, j :: 0 <= i < j < |s| ==> s[i].createdAt <= s[j].createdAt
  }

  /** Helper: inserts `x` into the sorted `s`, before every entry created at or after it. */
  function InsertByCreatedAt(x: LedgerEntry, s: seq<LedgerEntry>): (r: seq<LedgerEntry>)
    requires SortedByCreatedAt(s)
    ensures SortedByCreatedAt(r)
    ensures multiset(r) == multiset(s) + multiset{x}
    ensures |r| == |s| + 1 && (r[0] == x || (s != [] && r[0] == s[0]))
  {
    if s == [] || x.createdAt <= s[0].createdAt then [x] + s
    else
      assert s == [s[0]] + s[1..];
      [s[0]] + InsertByCreatedAt(x, s[1..])
  }

  /** An ordering of `s` by non-decreasing creation time (an `ORDER BY created_at`). */
  function SortByCreatedAt(s: seq<LedgerEntry>): (r: seq<LedgerEntry>)
    ensures SortedByCreatedAt(r)
    ensures multiset(r) == multiset(s)
  {
    if s == [] then []
    else
      assert s == [s[0]] + s[1..];
      InsertByCreatedAt(s[0], SortByCreatedAt(s[1..]))
  }

  /**
   * `LedgerEntryRepository.get_all_for_wallet`: the wallet's ledger entries,
   * each exactly once, ordered by creation time.
   */
  function History(entries: seq<LedgerEntry>, walletId: Id): (r: seq<LedgerEntry>)
    ensures SortedByCreatedAt(r)
    ensures multiset(r) == multiset(EntriesOfWallet(entries, walletId))
    ensures forall e :: e in r <==> e in entries && e.walletId == walletId
  {
    var own := EntriesOfWallet(entries, walletId);
    var r := SortByCreatedAt(own);
    assert forall e :: e in r <==> e in multiset(own);
    r
  }

  // Lemmas about the derived balance.

  /** The balance of a table split into its first entry and the rest. */
  lemma BalanceCons(h: LedgerEntry, rest: seq<LedgerEntry>, walletId: Id)
    ensures Balance([h] + rest, walletId) == Share(h, walletId) + Balance(rest, walletId)
  {
    var s := [h] + rest;
    assert s[0] == h && s[1..] == rest;
    var own := EntriesOfWallet(rest, walletId);
    if h.walletId == walletId {
      assert EntriesOfWallet(s, walletId) == [h] + own;
      assert ([h] + own)[1..] == own;
    } else {
      assert EntriesOfWallet(s, walletId) == own;
    }
  }

  /** Appending an entry adds its amount to its own wallet's balance and nothing to any other's. */
  lemma {:induction false} BalanceAppend(entries: seq<LedgerEntry>, e: LedgerEntry, walletId: Id)
    ensures Balance(entries + [e], walletId) == Balance(entries, walletId) + Share(e, walletId)
  {
    if entries == [] {
      assert entries + [e] == [e] + [];
      BalanceCons(e, [], walletId);
    } else {
      var h, rest := entries[0], entries[1..];
      assert entries == [h] + rest;
      assert entries + [e] == [h] + (rest + [e]);
      BalanceCons(h, rest + [e], walletId);
      BalanceCons(h, rest, walletId);
      BalanceAppend(rest, e, walletId);
    }
  }

  /**
   * Removing the entry `e` from a table with unique keys takes its amount
   * off its own wallet's balance and changes no other wallet's.
   */
  lemma {:induction false} BalanceWithout(entries: seq<LedgerEntry>, e: LedgerEntry, walletId: Id)
    requires KeysDistinct(entries, EntryKey)
    requires e in entries
    ensures Balance(WithoutKey(entries, EntryKey, e.id), walletId) == Balance(entries, walletId) - Share(e, walletId)
  {
    var h, rest := entries[0], entries[1..];
    assert entries == [h] + rest;
    assert KeysDistinct(rest, EntryKey) by {
      forall i, j | 0 <= i < j < |rest| ensures rest[i].id != rest[j].id {
        assert EntryKey(entries[i + 1]) != EntryKey(entries[j + 1]);
      }
    }
    forall y | y in rest ensures y.id != h.id {
      var j :| 0 <= j < |rest| && rest[j] == y;
      assert EntryKey(entries[0]) != EntryKey(entries[j + 1]);
    }
    BalanceCons(h, rest, walletId);
    if h.id == e.id {
      KeysDistinctSame(entries, EntryKey, h, e);
      assert WithoutKey(entries, EntryKey, e.id) == WithoutKey(rest, EntryKey, e.id);
      assert WithoutKey(rest, EntryKey, e.id) == rest;
    } else {
      assert e in rest;
      assert WithoutKey(entries, EntryKey, e.id) == [h] + WithoutKey(rest, EntryKey, e.id);
      BalanceCons(h, WithoutKey(rest, EntryKey, e.id), walletId);
      BalanceWithout(rest, e, walletId);
    }
  }

  /** Removing an entry from a table with unique keys removes exactly one row. */
  lemma {:induction false} EntriesWithoutOne(entries: seq<LedgerEntry>, e: LedgerEntry)
    requires KeysDistinct(entries, EntryKey)
    requires e in entries
    ensures |WithoutKey(entries, EntryKey, e.id)| == |entries| - 1
  {
    var h, rest := entries[0], entries[1..];
    assert entries == [h] + rest;
    assert KeysDistinct(rest, EntryKey) by {
      forall i, j | 0 <= i < j < |rest| ensures rest[i].id != rest[j].id {
        assert EntryKey(entries[i + 1]) != EntryKey(entries[j + 1]);
      }
    }
    forall y | y in rest ensures y.id != h.id {
      var j :| 0 <= j < |rest| && rest[j] == y;
      assert EntryKey(entries[0]) != EntryKey(entries[j + 1]);
    }
    if h.id == e.id {
      assert WithoutKey(entries, EntryKey, e.id) == WithoutKey(rest, EntryKey, e.id) == rest;
    } else {
      assert e in rest;
      assert WithoutKey(entries, EntryKey, e.id) == [h] + WithoutKey(rest, EntryKey, e.id);
      EntriesWithoutOne(rest, e);
    }
  }

  /** Helper: the sum of a sorted insertion is the inserted amount plus the old sum. */
  lemma {:induction false} SumInsert(x: LedgerEntry, s: seq<LedgerEntry>)
    requires SortedByCreatedAt(s)
    ensures Sum(InsertByCreatedAt(x, s)) == x.amount + Sum(s)
  {
    if s != [] && x.createdAt > s[0].createdAt {
      var r := InsertByCreatedAt(x, s);
      assert r[1..] == InsertByCreatedAt(x, s[1..]);
      SumInsert(x, s[1..]);
    }
  }

  /** Sorting does not change a sum. */
  lemma {:induction false} SumSort(s: seq<LedgerEntry>)
    ensures Sum(SortByCreatedAt(s)) == Sum(s)
  {
    if s != [] {
      SumSort(s[1..]);
      SumInsert(s[0], SortByCreatedAt(s[1..]));
    }
  }

  /** The balance is the sum of the amounts in the wallet's ordered history. */
  lemma HistorySumIsBalance(entries: seq<LedgerEntry>, walletId: Id)
    ensures Sum(History(entries, walletId)) == Balance(entries, walletId)
  {
    SumSort(EntriesOfWallet(entries, walletId));
  }
}
