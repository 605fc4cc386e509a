# Terminal bank: accounts, the bank and its accounts file

This project models the core of a small terminal banking program. It has three parts.

- **Account.** An account has a number, a password digest, a type label and a balance.
  - A new account gets a five-digit number and the digest of its password.
  - An account loaded from the file takes the number written there, and the digest written there hashed once more.
  - The program's hash is SHA-256. Here it is a parameter `hash`.
  - It can take deposits and withdrawals.
  - It can check a password.
  - It can append its record to the accounts file. The record is `<number>,<digest>,<type>,<balance>`.
- **Personal or business.** The two account subclasses differ only in their type label, so the model has one enumeration `Kind`.
- **Bank.** The bank keeps a dictionary from account numbers to accounts.
  - At start-up it loads the dictionary from the accounts file.
  - It appends an account's record to the file whenever the account is created or changed.
  - It also creates accounts, logs users in, and transfers money between accounts.

The model is split into modules.

- `Text` models Python's `str.isspace`, `str.strip()` and `str.split(",")`, exactly. For example, `"".split(",")` is `[""]`.
- `Decimal` writes and parses balance text.
- `Records` holds the account value and the record line. It encodes and decodes lines and proves the round trip.
- `Ledger` defines what loading a whole file yields. It is a left fold over the decoded lines: the last record for a number wins, and any malformed line fails the load. The lemmas about the whole fold (`LoadSucceedsIff`, `LoadedEntries`, `LoadedNumbers`, `LastRecordWins`) are proved by induction over the lines. The lemmas about one more line (`LoadAppend`, `LoadPrefixStep`, `MalformedLineFailsLoad`, `ReloadAfterSave` and those built on it) need no induction of their own: they follow from the fold's definition, from `DecodeLinesAt` or `DecodeLinesAppend`, from `LoadSucceedsIff` (for `MalformedLineFailsLoad`) and from `Records.RecordRoundTrip` (for `ReloadAfterSave`).
- `Accounts` and `Banking` model the program's objects as classes:
  - `Account` has a mutable `balance`;
  - `LedgerFile` stands for the accounts file: whether it exists, and its lines;
  - `Bank` has a mutable `accounts` dictionary.

  Their methods are proved against the functions above.

## How the model differs from a plain reading of the program

The model follows the code in these cases:

- **Re-hashing on reload.**
  - Loading passes each record's stored digest to the account constructor as if it were a password, so the constructor hashes it again.
  - After a restart, the digest held for an account is therefore `hash(digest)`, not `digest`.
  - A password then logs in exactly when its digest equals `hash(hash(original password))`. The old digest text itself always logs in.
  - Unless the hash collides on the original password and its digest, the original password is refused, except when the hash maps it to itself. If the hash also gives hexadecimal digests and does not collide this way, the original password is refused unless it is itself a digest. A hexadecimal hash alone does not ensure this: a constant hash accepts every password.
  - `Ledger.Reloaded`, `Ledger.ReloadRehashesPassword` and `Ledger.ReloadRefusesPassword` state this.
- **Blank lines.** A blank or whitespace-only line is malformed: after `strip()` it splits into one field, so unpacking four fields fails. `Records.BlankLineIsMalformed` states this.
- **Negative amounts.**
  - Withdrawal only refuses an amount above the balance, so a negative amount is accepted.
  - A deposit adds whatever it is given, so a negative deposit can take the balance below zero.
  - A transfer checks the amount only against the sender's balance. A negative amount is therefore always accepted when the sender's balance is zero or more. It credits the sender and debits the recipient, and it can take the recipient below zero. `Banking.Bank.Transfer` states this.

## Model

| member | source | states |
|---|---|---|
| `Accounts.Account.constructor` | banking_cli.py:6-13 | a new account keeps its number and type, stores `hash(password)` (so that password verifies), and starts with a zero balance |
| `Accounts.Deposited` | banking_cli.py:18-20 | a deposit moves the balance up for a non-negative amount and down for a negative one |
| `Accounts.Account.Deposit` | banking_cli.py:18-20 | the balance becomes `Deposited(old balance, amount)`, and the method returns the new balance |
| `Accounts.Withdrawn` | banking_cli.py:22-26 | the insufficient-funds error happens exactly when the amount exceeds the balance; otherwise the new balance plus the amount gives the old balance back, and the new balance is never negative |
| `Accounts.Account.Withdraw` | banking_cli.py:22-26 | the result is `Withdrawn(old balance, amount)`; on error the balance is unchanged, on success it is the returned value; a non-negative balance stays non-negative |
| `Accounts.TellerKeepsBalanceNonNegative` | banking_cli.py:18-26 | over any run of deposits and withdrawals where no deposit is negative, a balance that starts at zero or more stays at zero or more |
| `Accounts.NegativeDepositOverdraws` | banking_cli.py:18-20 | the no-negative-deposit hypothesis of `Accounts.TellerKeepsBalanceNonNegative` is needed: from any balance of zero or more, one deposit of minus the balance minus one leaves exactly -1 |
| `Accounts.Account.CheckPassword` | banking_cli.py:15-16 | models `check_password`: a password is accepted exactly when its digest under the account's hash equals the stored digest; the constructor proves that the creating password is accepted |
| `Accounts.LedgerFile.Append` | banking_cli.py:32-33 | append mode creates the file when it is missing and adds the line at the end |
| `Accounts.Account.SaveToFile` | banking_cli.py:31-33 | exactly one line is appended to the file: this account's record |
| `Records.KindOf` | banking_cli.py:35-41 | only the exact text "Personal" gives a personal account; the stored label equals the requested type exactly when that type is "Personal" or "Business" |
| `Records.EncodeRecord` | banking_cli.py:33 | models the record f-string without its newline: the four fields joined by commas; `Records.RecordLineFields` and `Records.RecordRoundTrip` state what it means |
| `Records.DecodeRecord` | banking_cli.py:53-58 | a line that cannot be read fails with the malformed-record error, never another error |
| `Records.BlankLineIsMalformed` | banking_cli.py:52-53 | a blank or all-whitespace line is malformed |
| `Records.DecodedIsEncodable` | banking_cli.py:53 | a field read from a line holds no comma, and the number field does not start with whitespace |
| `Records.RecordLineEnds` | banking_cli.py:33 | a written line starts with the account number, or with a comma when the number is empty, and ends with a digit of the balance |
| `Records.RecordLineStripped` | banking_cli.py:33 | `strip()` leaves a written line unchanged |
| `Records.RecordLineFields` | banking_cli.py:33 | `split(",")` of a written line gives exactly its four fields in order |
| `Records.RecordRoundTrip` | banking_cli.py:53-58 | reading a written line gives back the same number, digest, type and balance |
| `Text.IsSpace` | banking_cli.py:53 | models `str.isspace` on one character, the set of characters `strip()` removes: space, tab to carriage return, the separators U+001C to U+001F, U+0085, no-break space, U+1680, U+2000 to U+200A, U+2028, U+2029, U+202F, U+205F and U+3000 |
| `Text.TrimStart` | banking_cli.py:53 | the result is no longer than the input and does not start with whitespace |
| `Text.TrimEnd` | banking_cli.py:53 | the result is no longer than the input and does not end with whitespace |
| `Text.TrimStartIsSuffix` | banking_cli.py:53 | what `TrimStart` keeps is a suffix of its input |
| `Text.TrimEndIsPrefix` | banking_cli.py:53 | what `TrimEnd` keeps is a prefix of its input |
| `Text.TrimStartDropsSpaces` | banking_cli.py:53 | every character dropped by `TrimStart` is whitespace |
| `Text.TrimEndDropsSpaces` | banking_cli.py:53 | every character dropped by `TrimEnd` is whitespace |
| `Text.Strip` | banking_cli.py:53 | neither end of the result is whitespace, and text whose ends are not whitespace comes back unchanged |
| `Text.StripDropsSpaces` | banking_cli.py:53 | `strip()` keeps one stretch of the input, with only whitespace before and after it |
| `Text.Split` | banking_cli.py:53 | a split always has at least one part |
| `Text.JoinSplit` | banking_cli.py:53 | joining the parts of a split with the separator gives the text back |
| `Text.SplitPartsLackSeparator` | banking_cli.py:53 | no part of a split contains the separator |
| `Text.SplitWithoutSeparator` | banking_cli.py:53 | text without the separator splits into itself alone |
| `Text.SplitLeadingField` | banking_cli.py:53 | a leading field followed by the separator splits off as the first part |
| `Text.SplitJoin` | banking_cli.py:53 | splitting joined parts that hold no separator gives those parts back |
| `Decimal.IntToDecimal` | banking_cli.py:66 | models `str(i)`: a minus sign before the digits of a negative, the digits of `Decimal.NatToDecimal` otherwise; `Decimal.DecimalRoundTrip` and `Decimal.FiveDigits` state what it means |
| `Decimal.ParseInt` | banking_cli.py:58 | models `float(balance)` on whole numbers: an optional minus sign followed by one or more digits, and nothing else; `Decimal.DecimalRoundTrip` proves that it reads back what `Decimal.IntToDecimal` writes |
| `Decimal.NatToDecimal` | banking_cli.py:66 | `str(n)` is one or more digits, with no leading zero unless n is 0 |
| `Decimal.DecimalRoundTrip` | banking_cli.py:33 | parsing the written balance gives the balance back |
| `Decimal.FiveDigits` | banking_cli.py:66 | `str(randint(10000, 99999))` is exactly five digits |
| `Ledger.Reloaded` | banking_cli.py:55-58 | a loaded account keeps the line's number, type and balance; its digest is the line's digest hashed again |
| `Ledger.LoadDecoded` | banking_cli.py:52-59 | models the loop of `load_accounts` over decoded lines: the first malformed line ends the load with its error, and each good line sets its number's entry; its lemmas below state what it means |
| `Ledger.LoadRecords` | banking_cli.py:51-59 | models reading an existing file: each line decoded, then folded by `Ledger.LoadDecoded` |
| `Ledger.LoadFile` | banking_cli.py:48-60 | models `load_accounts`: an absent file gives an empty dictionary, an existing one is read by `Ledger.LoadRecords` |
| `Ledger.DecodeLinesAt` | banking_cli.py:52-53 | each line is read on its own: entry `j` is line `j` decoded |
| `Ledger.DecodeLinesAppend` | banking_cli.py:52-53 | reading one more line appends that line's decoding |
| `Ledger.LoadAbsentFile` | banking_cli.py:49-50 | a missing file loads like an empty one: an empty dictionary |
| `Ledger.LoadSucceedsIff` | banking_cli.py:52-60 | loading succeeds exactly when every line decodes, and otherwise fails with the error of some line |
| `Ledger.MalformedLineFailsLoad` | banking_cli.py:52-58 | one malformed line anywhere makes the whole load fail with the malformed-record error |
| `Ledger.LoadedEntries` | banking_cli.py:53-59 | every loaded entry sits under its own number and is some decoded line, with its digest hashed again |
| `Ledger.LoadedNumbers` | banking_cli.py:59 | a number is in the loaded dictionary exactly when some line carries it |
| `Ledger.LastRecordWins` | banking_cli.py:59 | a number's entry comes from the last line that carries that number |
| `Ledger.LoadAppend` | banking_cli.py:52-59 | loading one more well-formed line replaces only the entry for that line's number |
| `Ledger.LoadPrefixStep` | banking_cli.py:52-59 | the loop step of the load: after reading line `i`, the entry for line `i`'s number has been replaced |
| `Ledger.ReloadAfterSave` | banking_cli.py:31-33 | appending an account's record and reloading changes only that account's entry: number, type and balance as saved, digest hashed again |
| `Ledger.ReloadRehashesPassword` | banking_cli.py:8-16 | after a save and a reload, a password is accepted exactly when its digest equals the original password hashed twice, and the old digest text is accepted, for any hash |
| `Ledger.ReloadRefusesPassword` | banking_cli.py:8-16 | when the hash does not collide on the original password and its digest, that password is accepted after a save and a reload exactly when the hash maps it to itself; if the hash also gives hexadecimal digests, an original password that is not itself a digest is refused |
| `Banking.MirrorsAfterSave` | banking_cli.py:62-63 | if reloading the file matched the accounts before, then after saving one account it matches them with that account's saved number, type and balance |
| `Banking.MirrorsAfterTransfer` | banking_cli.py:88-89 | the two records a transfer appends, sender first, keep a reload matching both accounts; when the sender is the recipient, the later record is the one kept |
| `Banking.Bank.constructor` | banking_cli.py:44-46 | a bank built on a well-formed file, a hexadecimal hash and accounts filed under their numbers keeps them and satisfies the bank invariant |
| `Banking.Bank.SaveAccount` | banking_cli.py:62-63 | the bank's invariant is kept, and the file gains exactly the account's current record |
| `Banking.Bank.Login` | banking_cli.py:75-80 | login succeeds exactly when the number is known and its account accepts the password, and returns that account; every other case is one authentication error |
| `Banking.Bank.CreateAccount` | banking_cli.py:65-73 | the account is fresh, its number is the five-digit text of the drawn id, its type comes from `KindOf`, and its balance is zero; it replaces any account under that number; exactly its record is appended; logging in with its number and password returns it |
| `Banking.Bank.Transfer` | banking_cli.py:82-89 | an unknown recipient changes nothing; an amount above the sender's balance changes nothing; otherwise the sender is debited and the recipient credited, the sum of the two balances is kept, a self-transfer leaves the balance as it was, the two records are appended sender first, and every other account is untouched |
| `Banking.LoadAccounts` | banking_cli.py:48-60 | the load succeeds exactly when the file's lines load; an error is always the malformed-record error; the new accounts hold exactly the loaded values, each under its own number, sharing the hash, and each storing some digest of the hash |
| `Banking.OpenBank` | banking_cli.py:44-46 | a bank opens exactly when its file loads; it then holds the loaded accounts and satisfies the bank invariant |

## Left out

- `main` and `Account.__str__`: the interactive menu, console input and output, and balance formatting. These are I/O.
- SHA-256 is not modelled. The hash is a parameter `hash: string -> string`, and `HexHash` assumes only that its digests are 64 lower-case hexadecimal characters. That is all the record format needs.
- `random.randint` is not modelled. The drawn number is the `id` parameter of `CreateAccount`, and its range is a precondition.
- The file system is not modelled beyond `LedgerFile`, which records whether the file exists and holds its lines.
  - Opening, closing and the file name are left out.
  - Splitting the file text into lines is left out, and so is the newline that ends each written line. A line arrives at `strip()` without its newline.
- `Decimal.ParseInt`: balances are whole numbers, not Python floats. Records carry `str(int)` text, which is parsed back exactly. `float()` accepts more text than this parser, such as surrounding spaces, exponents, `inf` and `nan`. Rounding of float arithmetic is also not modelled.
- Line breaks inside a field are not ruled out. `PlainNumber` and `Encodable` allow `'\n'` and `'\r'` in an account number or a digest, and `LedgerFile` allows them in a line. The program would write such a record as two lines. `Records.RecordRoundTrip` and `Ledger.ReloadAfterSave` therefore also cover records that the program could not read back. Every number the program creates is five digits, and every digest is hexadecimal, so no such record arises from the program.
- Error messages are not modelled. Each `ValueError` is one `BankError` value. Both causes of a malformed line, a wrong field count and an unreadable balance, are `MalformedRecord`.
- There is no invariant that the file mirrors memory across several calls. `MirrorsAfterSave` and `MirrorsAfterTransfer` state, on values, that each append keeps a reload matching memory. The methods state exactly which records they append.
