/**
 * The `Bank`: the dictionary of accounts, loaded from the accounts file at
 * start-up and appended to on every change.
 */
module Banking {
  import opened Wrappers
  import opened Decimal
  import opened Records
  import opened Ledger
  import opened Accounts

  /** The accounts of a dictionary as values. */
  function Snapshot(m: map<string, Account>): (r: map<string, AccountState>)
    reads m.Values
    ensures r.Keys == m.Keys
  {
    map k | k in m :: m[k].State()
  }

  /** Two account values that agree on everything a reload restores. */
  predicate SameEntry(a: AccountState, b: AccountState) {
    a.number == b.number && a.kind == b.kind && a.balance == b.balance
  }

  /** A reload would give the same numbers, and for each the same type and balance. */
  predicate Mirrors(loaded: Result<map<string, AccountState>, BankError>, current: map<string, AccountState>) {
    && loaded.Ok?
    && loaded.value.Keys == current.Keys
    && forall k | k in current :: SameEntry(loaded.value[k], current[k])
  }

  /** Saving an account's record keeps the file a mirror of memory in which
      that account has its saved value. */
  lemma MirrorsAfterSave(present: bool, lines: seq<string>, hash: string -> string, current: map<string, AccountState>, s: AccountState)
    requires present || lines == []
    requires Mirrors(LoadFile(present, lines, hash), current)
    requires Encodable(s)
    ensures Mirrors(LoadFile(true, lines + [EncodeRecord(s)], hash), current[s.number := s])
  {
    LoadAbsentFile(present, lines, hash);
    ReloadAfterSave(lines, hash, s);
  }

  /** The two records a transfer appends, sender first, keep the file a mirror
      of memory in which both accounts have their new values; when the two
      are the same account, the later record is the one a reload keeps. */
  lemma MirrorsAfterTransfer(present: bool, lines: seq<string>, hash: string -> string, current: map<string, AccountState>, sf: AccountState, st: AccountState)
    requires present || lines == []
    requires Mirrors(LoadFile(present, lines, hash), current)
    requires Encodable(sf) && Encodable(st)
    ensures Mirrors(LoadFile(true, lines + [EncodeRecord(sf), EncodeRecord(st)], hash), current[sf.number := sf][st.number := st])
  {
    MirrorsAfterSave(present, lines, hash, current, sf);
    MirrorsAfterSave(true, lines + [EncodeRecord(sf)], hash, current[sf.number := sf], st);
    assert lines + [EncodeRecord(sf)] + [EncodeRecord(st)] == lines + [EncodeRecord(sf), EncodeRecord(st)];
  }

  /** Each account sits under its own number, shares `hash`, and has a number
      and digest that the record format can carry. */
  ghost predicate Filed(accounts: map<string, Account>, hash: string -> string) {
    forall k | k in accounts ::
      && accounts[k].number == k
      && accounts[k].hash == hash
      && PlainNumber(k)
      && ',' !in accounts[k].digest
  }

  class Bank {
    const file: LedgerFile
    const hash: string -> string
    var accounts: map<string, Account>

    /** The file is well formed, the hash gives hexadecimal digests, and the
        accounts are filed under their numbers. */
    ghost predicate Valid()
      reads this, file
    {
      file.Valid() && HexHash(hash) && Filed(accounts, hash)
    }

    constructor (file: LedgerFile, hash: string -> string, accounts: map<string, Account>)
      requires file.Valid() && HexHash(hash) && Filed(accounts, hash)
      ensures this.file == file && this.hash == hash && this.accounts == accounts
      ensures Valid()
    {
      this.file := file;
      this.hash := hash;
      this.accounts := accounts;
    }

    /** `save_account`. */
    method SaveAccount(account: Account)
      requires Valid()
      modifies file
      ensures Valid()
      ensures file.present && file.lines == old(file.lines) + [EncodeRecord(account.State())]
    {
      account.SaveToFile(file);
    }

    /** `login`: the account under `number` when the password's digest matches
        the stored one; otherwise an authentication error. */
    function Login(number: string, password: string): (r: Result<Account, BankError>)
      reads this
      ensures r.Ok? <==> number in accounts && accounts[number].CheckPassword(password)
      ensures r.Ok? ==> r.value == accounts[number]
      ensures r.Err? ==> r.error == AuthenticationError
    {
      if number in accounts && accounts[number].CheckPassword(password) then Ok(accounts[number])
      else Err(AuthenticationError)
    }

    /** `create_account`, with the random draw passed in as `id`. An account
        already under the drawn number is replaced. */
    method CreateAccount(accountType: string, password: string, id: int) returns (account: Account)
      requires Valid()
      requires 10000 <= id <= 99999
      modifies this, file
      ensures Valid()
      ensures fresh(account)
      ensures account.number == IntToDecimal(id) && |account.number| == 5 && AllDigits(account.number)
      ensures account.kind == KindOf(accountType) && account.balance == 0
      ensures account.hash == hash && account.digest == hash(password)
      ensures accounts == old(accounts)[account.number := account]
      ensures file.present && file.lines == old(file.lines) + [EncodeRecord(account.State())]
      ensures Login(account.number, password) == Ok(account)
    {
      var number := IntToDecimal(id);
      FiveDigits(id);
      DecimalNumberIsPlain(id);
      account := new Account(number, password, KindOf(accountType), hash);
      HexDigestHasNoComma(account.digest);
      accounts := accounts[number := account];
      SaveAccount(account);
    }

    /** `transfer`: the recipient must be known, then the sender is debited
        (which may fail), the recipient credited, and both records appended,
        sender first. The sender is any account object, in the dictionary or
        not, and may be the recipient itself. */
    method Transfer(from: Account, toNumber: string, amount: int) returns (r: Result<(), BankError>)
      requires Valid()
      modifies from, file, if toNumber in accounts then {accounts[toNumber]} else {}
      ensures Valid() && accounts == old(accounts)
      ensures toNumber !in accounts ==>
        && r == Err(UnknownRecipient)
        && from.balance == old(from.balance)
        && file.present == old(file.present) && file.lines == old(file.lines)
      ensures toNumber in accounts && amount > old(from.balance) ==>
        && r == Err(InsufficientFunds)
        && from.balance == old(from.balance)
        && accounts[toNumber].balance == old(accounts[toNumber].balance)
        && file.present == old(file.present) && file.lines == old(file.lines)
      ensures toNumber in accounts && amount <= old(from.balance) ==>
        var to := accounts[toNumber];
        && r == Ok(())
        && (from != to ==> from.balance == old(from.balance) - amount && to.balance == old(to.balance) + amount)
        && (from != to ==> from.balance + to.balance == old(from.balance) + old(to.balance))
        && (from == to ==> from.balance == old(from.balance))
        && file.present
        && file.lines == old(file.lines) + [EncodeRecord(from.State()), EncodeRecord(to.State())]
      ensures forall k | k in accounts && k != toNumber && accounts[k] != from :: accounts[k].balance == old(accounts[k].balance)
    {
      if toNumber !in accounts {
        return Err(UnknownRecipient);
      }
      var to := accounts[toNumber];
      var withdrawn := from.Withdraw(amount);
      if withdrawn.Err? {
        return Err(withdrawn.error);
      }
      var deposited := to.Deposit(amount);
      SaveAccount(from);
      SaveAccount(to);
      r := Ok(());
    }
  }

  /** `load_accounts`: one fresh account per number, built from the last line
      bearing it; a malformed line fails the whole load. */
  method LoadAccounts(file: LedgerFile, hash: string -> string) returns (r: Result<map<string, Account>, BankError>)
    ensures r.Ok? <==> LoadFile(file.present, file.lines, hash).Ok?
    ensures r.Err? ==> r.error == MalformedRecord
    ensures r.Ok? ==> Snapshot(r.value) == LoadFile(file.present, file.lines, hash).value
    ensures r.Ok? ==> forall k | k in r.value ::
      && fresh(r.value[k])
      && r.value[k].number == k
      && r.value[k].hash == hash
      && PlainNumber(k)
      && exists p :: r.value[k].digest == hash(p)
  {
    var accounts: map<string, Account> := map[];
    if file.present {
      var lines := file.lines;
      ghost var states: map<string, AccountState> := map[];
      var i := 0;
      while i < |lines|
        invariant 0 <= i <= |lines|
        invariant LoadRecords(lines[..i], hash) == Ok(states)
        invariant states.Keys == accounts.Keys
        invariant forall k | k in accounts ::
          && fresh(accounts[k])
          && accounts[k].State() == states[k]
          && accounts[k].number == k
          && accounts[k].hash == hash
          && PlainNumber(k)
          && exists p :: accounts[k].digest == hash(p)
      {
        var decoded := DecodeRecord(lines[i]);
        if decoded.Err? {
          MalformedLineFailsLoad(lines, i, hash);
          return Err(MalformedRecord);
        }
        var rec := decoded.value;
        DecodedIsEncodable(lines[i]);
        var account := new Account(rec.number, rec.digest, rec.kind, hash);
        account.balance := rec.balance;
        LoadPrefixStep(lines, i, hash);
        accounts := accounts[rec.number := account];
        states := states[rec.number := account.State()];
        i := i + 1;
      }
      assert lines[..i] == lines;
      assert Snapshot(accounts) == states;
    }
    r := Ok(accounts);
  }

  /** The `Bank` constructor: load the accounts file, then keep its accounts. */
  method OpenBank(file: LedgerFile, hash: string -> string) returns (r: Result<Bank, BankError>)
    requires file.Valid() && HexHash(hash)
    ensures r.Ok? <==> LoadFile(file.present, file.lines, hash).Ok?
    ensures r.Err? ==> r.error == MalformedRecord
    ensures r.Ok? ==> fresh(r.value) && r.value.file == file && r.value.hash == hash
    ensures r.Ok? ==> r.value.Valid()
    ensures r.Ok? ==> Snapshot(r.value.accounts) == LoadFile(file.present, file.lines, hash).value
  {
    var loaded := LoadAccounts(file, hash);
    if loaded.Err? {
      return Err(loaded.error);
    }
    forall k | k in loaded.value
      ensures ',' !in loaded.value[k].digest
    {
      var p :| loaded.value[k].digest == hash(p);
      HexDigestHasNoComma(hash(p));
    }
    var bank := new Bank(file, hash, loaded.value);
    r := Ok(bank);
  }
}
