/**
 * The four tables of the wallet service's accounting store (users, wallets,
 * transactions and ledger entries), the column types that constrain what a
 * row may hold, and the integrity rules the schema declares: primary keys,
 * the unique email, and the foreign keys between the tables.
 */
module Models {
  import opened Wrappers
  import opened Seqs

  /** A primary key. The service draws random UUIDs; here the caller supplies them. */
  type Id = nat

  /** A point in time with time zone, as a count of microseconds since the Unix epoch in UTC. */
  type Timestamp = int

  /** A signed amount of money counted in hundredths of the wallet's currency unit. */
  type Cents = int

  datatype User = User(id: Id, email: string, passwordHash: string, createdAt: Timestamp)

  datatype Wallet = Wallet(id: Id, userId: Id, currency: string, createdAt: Timestamp)

  /** `kind` is the `type` column (transfer, deposit or withdraw by convention); both it and `status` are free text. */
  datatype Transaction = Transaction(id: Id, kind: string, status: string, createdAt: Timestamp)

  datatype LedgerEntry = LedgerEntry(id: Id, walletId: Id, transactionId: Id, amount: Cents, createdAt: Timestamp)

  /** The contents of the store: each table's rows in the order they were inserted. */
  datatype Tables = Tables(
    users: seq<User>,
    wallets: seq<Wallet>,
    transactions: seq<Transaction>,
    entries: seq<LedgerEntry>)

  const EmptyTables := Tables([], [], [], [])

  /** Why the store refused an add or a delete. */
  datatype DbError =
    | DuplicateKey        // a primary key already in the table
    | DuplicateEmail      // the unique email column
    | ForeignKeyViolation // a reference to a row that does not exist
    | ValueTooLong        // a string that does not fit a CHAR(n) column
    | NumericOverflow     // an amount outside NUMERIC(18, 2)
    | NulCharacter        // text holding U+0000, which PostgreSQL text values cannot contain
    | StillReferenced     // a delete blocked by the ledger entries that still refer to the row
    | NotPersisted        // a delete of a row that is not in the table

  // Key columns, as functions so that uniqueness can be stated once for every table.

  function UserKey(u: User): Id { u.id }
  function EmailKey(u: User): string { u.email }
  function WalletKey(w: Wallet): Id { w.id }
  function TransactionKey(x: Transaction): Id { x.id }
  function EntryKey(e: LedgerEntry): Id { e.id }
  function OwnerKey(w: Wallet): Id { w.userId }

  predicate HasUser(users: seq<User>, id: Id) { exists u :: u in users && u.id == id }
  predicate EmailTaken(users: seq<User>, email: string) { exists u :: u in users && u.email == email }
  predicate HasWallet(wallets: seq<Wallet>, id: Id) { exists w :: w in wallets && w.id == id }
  predicate HasTransaction(transactions: seq<Transaction>, id: Id) { exists x :: x in transactions && x.id == id }
  predicate HasEntry(entries: seq<LedgerEntry>, id: Id) { exists e :: e in entries && e.id == id }

  // The amount column, NUMERIC(18, 2): at most 18 decimal digits, 2 of them after the point.
  // Counted in cents, that is every whole number with at most 18 digits.

  const AmountPrecision: nat := 18

  function Pow10(n: nat): (r: nat)
    ensures r >= 1
  {
    if n == 0 then 1 else 10 * Pow10(n - 1)
  }

  /** The number of decimal digits of `n`, writing 0 as one digit. */
  function Digits(n: nat): (r: nat)
    ensures r >= 1
  {
    if n < 10 then 1 else 1 + Digits(n / 10)
  }

  /** A number has at most k digits exactly when it is below 10^k. */
  lemma {:induction false} DigitsBelow(n: nat, k: nat)
    requires k >= 1
    ensures Digits(n) <= k <==> n < Pow10(k)
  {
    if n >= 10 {
      if k == 1 {
        assert Pow10(1) == 10;
      } else {
        DigitsBelow(n / 10, k - 1);
      }
    }
  }

  function Abs(x: int): nat { if x < 0 then -x else x }

  /** 10^AmountPrecision: the least number of cents the amount column cannot hold. */
  const AmountBound: int := Pow10(AmountPrecision)

  /** The amount column holds `amount` cents exactly when it has at most 18 digits. */
  predicate FitsAmountColumn(amount: Cents)
    ensures FitsAmountColumn(amount) <==> Digits(Abs(amount)) <= AmountPrecision
  {
    DigitsBelow(Abs(amount), AmountPrecision);
    -AmountBound < amount < AmountBound
  }

  /** PostgreSQL's text and character types cannot store the character U+0000; the driver refuses such a string. */
  predicate FitsTextColumn(s: string) {
    forall i :: 0 <= i < |s| ==> s[i] != '\0'
  }

  /** Width of the currency column, CHAR(3). */
  const CurrencyWidth: nat := 3

  function Blanks(n: nat): (r: string)
    ensures |r| == n
    ensures forall i :: 0 <= i < n ==> r[i] == ' '
  {
    if n == 0 then "" else Blanks(n - 1) + " "
  }

  /**
   * The value a CHAR(n) column stores for the string `s`: a shorter string is
   * padded with blanks to n characters; a longer one is cut to n characters
   * when everything past the n-th is blank, and refused otherwise.
   */
  function StoreFixedChar(s: string, n: nat): (r: Option<string>)
    ensures r.Some? <==> |s| <= n || forall i :: n <= i < |s| ==> s[i] == ' '
    ensures r.Some? ==> |r.value| == n
    ensures r.Some? ==> forall i :: 0 <= i < n ==> r.value[i] == if i < |s| then s[i] else ' '
  {
    if |s| <= n then Some(s + Blanks(n - |s|))
    else if forall i :: n <= i < |s| ==> s[i] == ' ' then Some(s[..n])
    else None
  }

  /** A string of exactly n characters is stored unchanged, and storing a stored value again changes nothing. */
  lemma StoreFixedCharStable(s: string, n: nat)
    ensures |s| == n ==> StoreFixedChar(s, n) == Some(s)
    ensures StoreFixedChar(s, n).Some? ==> StoreFixedChar(StoreFixedChar(s, n).value, n) == StoreFixedChar(s, n)
  {
    if |s| == n {
      assert s + Blanks(0) == s;
    }
    var r := StoreFixedChar(s, n);
    if r.Some? {
      assert r.value + Blanks(0) == r.value;
    }
  }

  // The integrity rules of the schema.

  /** Users: primary key `id`, unique `email`, text free of U+0000. A user is determined by its id and by its email. */
  ghost predicate UsersValid(users: seq<User>)
    ensures UsersValid(users) ==>
              forall a, b :: a in users && b in users && (a.id == b.id || a.email == b.email) ==> a == b
  {
    && KeysDistinct(users, UserKey)
    && KeysDistinct(users, EmailKey)
    && forall u :: u in users ==> FitsTextColumn(u.email) && FitsTextColumn(u.passwordHash)
  }

  /**
   * Wallets: primary key `id`; `currency` fills its CHAR(3); `user_id` refers
   * to a stored user. A wallet is determined by its id, and its stored
   * currency is what the column keeps when it is written again.
   */
  ghost predicate WalletsValid(users: seq<User>, wallets: seq<Wallet>)
    ensures WalletsValid(users, wallets) ==>
              && (forall a, b :: a in wallets && b in wallets && a.id == b.id ==> a == b)
              && (forall w :: w in wallets ==> StoreFixedChar(w.currency, CurrencyWidth) == Some(w.currency))
  {
    assert forall w :: w in wallets && |w.currency| == CurrencyWidth ==>
             StoreFixedChar(w.currency, CurrencyWidth) == Some(w.currency) by {
      forall w | w in wallets && |w.currency| == CurrencyWidth {
        StoreFixedCharStable(w.currency, CurrencyWidth);
      }
    }
    && KeysDistinct(wallets, WalletKey)
    && forall w :: w in wallets ==>
         && |w.currency| == CurrencyWidth
         && FitsTextColumn(w.currency)
         && HasUser(users, w.userId)
  }

  /** Transactions: primary key `id`, text free of U+0000. A transaction is determined by its id. */
  ghost predicate TransactionsValid(transactions: seq<Transaction>)
    ensures TransactionsValid(transactions) ==>
              forall a, b :: a in transactions && b in transactions && a.id == b.id ==> a == b
  {
    && KeysDistinct(transactions, TransactionKey)
    && forall x :: x in transactions ==> FitsTextColumn(x.kind) && FitsTextColumn(x.status)
  }

  /**
   * Ledger entries: primary key `id`; `wallet_id` and `transaction_id` refer
   * to stored rows (neither may be absent); `amount` fits NUMERIC(18, 2).
   * An entry is determined by its id, and its amount has at most 18 digits.
   */
  ghost predicate EntriesValid(wallets: seq<Wallet>, transactions: seq<Transaction>, entries: seq<LedgerEntry>)
    ensures EntriesValid(wallets, transactions, entries) ==>
              && (forall a, b :: a in entries && b in entries && a.id == b.id ==> a == b)
              && (forall e :: e in entries ==> Digits(Abs(e.amount)) <= AmountPrecision)
  {
    && KeysDistinct(entries, EntryKey)
    && forall e :: e in entries ==>
         && HasWallet(wallets, e.walletId)
         && HasTransaction(transactions, e.transactionId)
         && FitsAmountColumn(e.amount)
  }

  /**
   * Every integrity rule of the schema holds. Then the references chain: every
   * ledger entry's wallet is stored and is owned by a stored user.
   */
  ghost predicate Consistent(t: Tables)
    ensures Consistent(t) ==>
              forall e :: e in t.entries ==>
                exists w :: w in t.wallets && w.id == e.walletId && HasUser(t.users, w.userId)
  {
    && UsersValid(t.users)
    && WalletsValid(t.users, t.wallets)
    && TransactionsValid(t.transactions)
    && EntriesValid(t.wallets, t.transactions, t.entries)
  }
}
