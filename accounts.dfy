/**
 * The `Account` object (with its `PersonalAccount` / `BusinessAccount`
 * labels) and the accounts file it appends to.
 */
module Accounts {
  import opened Wrappers
  import opened Records

  /** The balance `deposit` leaves: the amount is added whatever its sign. */
  function Deposited(balance: int, amount: int): (r: int)
    ensures amount >= 0 ==> r >= balance
    ensures amount < 0 ==> r < balance
  {
    balance + amount
  }

  /** The balance `withdraw` leaves, or the insufficient-funds error when the
      amount exceeds the balance. A negative amount is not rejected. */
  function Withdrawn(balance: int, amount: int): (r: Result<int, BankError>)
    ensures r.Err? <==> amount > balance
    ensures r.Err? ==> r.error == InsufficientFunds
    ensures r.Ok? ==> r.value + amount == balance && r.value >= 0
  {
    if amount > balance then Err(InsufficientFunds) else Ok(balance - amount)
  }

  /** One teller operation on an account, as the interactive shell issues them. */
  datatype Teller = DepositOp(amount: int) | WithdrawOp(amount: int)

  /** The balance after a run of operations; a refused withdrawal leaves the
      balance as it was and the run goes on. */
  function RunTeller(balance: int, ops: seq<Teller>): int
    decreases |ops|
  {
    if ops == [] then balance
    else
      var next := match ops[0]
        case DepositOp(a) => Deposited(balance, a)
        case WithdrawOp(a) => match Withdrawn(balance, a) case Ok(b) => b case Err(_) => balance;
      RunTeller(next, ops[1..])
  }

  /** A balance that starts non-negative stays non-negative through any run in
      which no deposit is negative; withdrawals may have any sign. */
  lemma {:induction false} TellerKeepsBalanceNonNegative(balance: int, ops: seq<Teller>)
    requires balance >= 0
    requires forall i :: 0 <= i < |ops| && ops[i].DepositOp? ==> ops[i].amount >= 0
    ensures RunTeller(balance, ops) >= 0
    decreases |ops|
  {
    if ops != [] {
      var next := match ops[0]
        case DepositOp(a) => Deposited(balance, a)
        case WithdrawOp(a) => match Withdrawn(balance, a) case Ok(b) => b case Err(_) => balance;
      assert forall i :: 0 <= i < |ops| - 1 ==> ops[1..][i] == ops[i + 1];
      TellerKeepsBalanceNonNegative(next, ops[1..]);
    }
  }

  /** The hypothesis on deposits above cannot be dropped: from any balance
      of zero or more, one deposit of minus the balance minus one leaves -1. */
  lemma NegativeDepositOverdraws(balance: int)
    requires balance >= 0
    ensures RunTeller(balance, [DepositOp(-(balance + 1))]) == -1
  {
  }

  /** The accounts file: whether it exists, and its lines in order. */
  class LedgerFile {
    var present: bool
    var lines: seq<string>

    /** A file that does not exist has no lines. */
    ghost predicate Valid()
      reads this
    {
      present || lines == []
    }

    constructor (present: bool, lines: seq<string>)
      requires present || lines == []
      ensures Valid() && this.present == present && this.lines == lines
    {
      this.present := present;
      this.lines := lines;
    }

    /** Opening in append mode creates the file; the line goes at the end. */
    method Append(line: string)
      requires Valid()
      modifies this
      ensures Valid() && present && lines == old(lines) + [line]
    {
      present := true;
      lines := lines + [line];
    }
  }

  class Account {
    const number: string
    /** The `password` attribute: the digest, never the password itself. */
    const digest: string
    const kind: Kind
    /** The hash collaborator (`hash_password`). */
    const hash: string -> string
    var balance: int

    /** Stores the digest of the given password and a zero balance. */
    constructor (number: string, password: string, kind: Kind, hash: string -> string)
      ensures this.number == number && this.kind == kind && this.hash == hash
      ensures digest == hash(password) && Verifies(hash, digest, password)
      ensures balance == 0
    {
      this.number := number;
      this.digest := hash(password);
      this.kind := kind;
      this.hash := hash;
      balance := 0;
    }

    function State(): AccountState
      reads this
    {
      AccountState(number, digest, kind, balance)
    }

    predicate CheckPassword(password: string)
    {
      Verifies(hash, digest, password)
    }

    method Deposit(amount: int) returns (newBalance: int)
      modifies this
      ensures balance == Deposited(old(balance), amount) && newBalance == balance
    {
      balance := balance + amount;
      newBalance := balance;
    }

    method Withdraw(amount: int) returns (r: Result<int, BankError>)
      modifies this
      ensures r == Withdrawn(old(balance), amount)
      ensures r.Err? ==> balance == old(balance)
      ensures r.Ok? ==> balance == r.value
      ensures old(balance) >= 0 ==> balance >= 0
    {
      if amount > balance {
        return Err(InsufficientFunds);
      }
      balance := balance - amount;
      r := Ok(balance);
    }

    /** `save_to_file`: appends this account's record. */
    method SaveToFile(file: LedgerFile)
      requires file.Valid()
      modifies file
      ensures file.Valid() && file.present && file.lines == old(file.lines) + [EncodeRecord(State())]
    {
      file.Append(EncodeRecord(State()));
    }
  }
}
