/**
 * The account as a value and its one-line record in the accounts file:
 * `<number>,<password digest>,<account type>,<balance>`.
 */
module Records {
  import opened Wrappers
  import opened Text
  import opened Decimal

  /** `PersonalAccount` and `BusinessAccount` differ only in this label. */
  datatype Kind = Personal | Business

  /** The errors the ledger raises (all of them `ValueError` in the program). */
  datatype BankError = InsufficientFunds | AuthenticationError | UnknownRecipient | MalformedRecord

  /** The four attributes of an account, in record order. */
  datatype AccountState = AccountState(number: string, digest: string, kind: Kind, balance: int)

  function Label(k: Kind): string
  {
    match k
    case Personal => "Personal"
    case Business => "Business"
  }

  /** How both account creation and loading pick the account class: only the
      exact text "Personal" gives a personal account. */
  function KindOf(accountType: string): (k: Kind)
    ensures k == Personal <==> accountType == "Personal"
    ensures Label(k) == accountType <==> accountType == "Personal" || accountType == "Business"
  {
    if accountType == "Personal" then Personal else Business
  }

  /** Shape of a SHA-256 `hexdigest()`: 64 lower-case hexadecimal digits. */
  predicate IsHexDigest(d: string) {
    |d| == 64 && forall i :: 0 <= i < |d| ==> d[i] in "0123456789abcdef"
  }

  /** The hash collaborator returns hexadecimal digests. */
  ghost predicate HexHash(hash: string -> string) {
    forall p :: IsHexDigest(hash(p))
  }

  lemma HexDigestHasNoComma(d: string)
    requires IsHexDigest(d)
    ensures ',' !in d
  {
  }

  /** A decimal account number survives the record format. */
  lemma DecimalNumberIsPlain(n: nat)
    ensures PlainNumber(IntToDecimal(n))
  {
  }

  /** Whether the password's digest is the stored one. */
  predicate Verifies(hash: string -> string, digest: string, password: string) {
    hash(password) == digest
  }

  /** An account number that survives the record format: no comma, and no
      leading whitespace for `strip()` to remove. */
  predicate PlainNumber(n: string) {
    ',' !in n && (n == [] || !IsSpace(n[0]))
  }

  predicate Encodable(s: AccountState) {
    PlainNumber(s.number) && ',' !in s.digest
  }

  /** The line `save_to_file` writes, without its newline. */
  function EncodeRecord(s: AccountState): string
  {
    Join(RecordFields(s), ',')
  }

  /** The four fields of the record, in order. */
  function RecordFields(s: AccountState): seq<string>
  {
    [s.number, s.digest, Label(s.kind), IntToDecimal(s.balance)]
  }

  /** One line of the file as `load_accounts` reads it: strip, split on commas,
      require exactly four fields, parse the balance. The digest field is
      returned as written; the caller decides what to do with it. */
  function DecodeRecord(line: string): (r: Result<AccountState, BankError>)
    ensures r.Err? ==> r.error == MalformedRecord
  {
    var fields := Split(Strip(line), ',');
    if |fields| != 4 then Err(MalformedRecord)
    else
      match ParseInt(fields[3])
      case None => Err(MalformedRecord)
      case Some(b) => Ok(AccountState(fields[0], fields[1], KindOf(fields[2]), b))
  }

  /** A decoded account can be written back: its number and digest hold no
      comma, and its number does not start with whitespace. */
  lemma DecodedIsEncodable(line: string)
    requires DecodeRecord(line).Ok?
    ensures Encodable(DecodeRecord(line).value)
  {
    var fields := Split(Strip(line), ',');
    JoinSplit(Strip(line), ',');
    JoinStartsWithFirst(fields, ',');
    SplitPartsLackSeparator(Strip(line), ',');
  }

  /** A line that is blank or all whitespace is malformed: it splits into a
      single empty field. */
  lemma BlankLineIsMalformed(line: string)
    requires forall i :: 0 <= i < |line| ==> IsSpace(line[i])
    ensures DecodeRecord(line) == Err(MalformedRecord)
  {
    var e := TrimEnd(line);
    TrimEndIsPrefix(line);
    assert e == [];
    assert Split(Strip(line), ',') == [[]];
  }

  lemma IntToDecimalHasNoComma(i: int)
    ensures ',' !in IntToDecimal(i)
    ensures IntToDecimal(i) != [] && IsDigit(IntToDecimal(i)[|IntToDecimal(i)| - 1])
  {
    var s := IntToDecimal(i);
    if i < 0 {
      assert s[1..] == NatToDecimal(-i);
      assert forall j :: 1 <= j < |s| ==> s[j] == NatToDecimal(-i)[j - 1];
    }
  }

  /** The written line as a leading number field and the rest. */
  lemma RecordLineShape(s: AccountState)
    ensures EncodeRecord(s) == s.number + [','] + (s.digest + [','] + (Label(s.kind) + [','] + IntToDecimal(s.balance)))
  {
    var n, d, k, b := s.number, s.digest, Label(s.kind), IntToDecimal(s.balance);
    assert Join([k, b], ',') == k + [','] + b by { assert [k, b][1..] == [b]; }
    assert Join([d, k, b], ',') == d + [','] + (k + [','] + b) by { assert [d, k, b][1..] == [k, b]; }
    assert RecordFields(s)[1..] == [d, k, b];
  }

  /** The written line starts with the account number's first character, or
      the comma after an empty number, and ends with the balance's last digit. */
  lemma RecordLineEnds(s: AccountState)
    ensures EncodeRecord(s) != []
    ensures EncodeRecord(s)[0] == if s.number == [] then ',' else s.number[0]
    ensures IsDigit(EncodeRecord(s)[|EncodeRecord(s)| - 1])
  {
    var line, b := EncodeRecord(s), IntToDecimal(s.balance);
    IntToDecimalHasNoComma(s.balance);
    RecordLineShape(s);
    assert line[|line| - 1] == b[|b| - 1];
  }

  /** The written line begins and ends with a character that `strip()` keeps. */
  lemma RecordLineStripped(s: AccountState)
    requires Encodable(s)
    ensures Strip(EncodeRecord(s)) == EncodeRecord(s)
  {
    RecordLineEnds(s);
  }

  /** The written line splits into its four fields. */
  lemma RecordLineFields(s: AccountState)
    requires Encodable(s)
    ensures Split(EncodeRecord(s), ',') == RecordFields(s)
  {
    IntToDecimalHasNoComma(s.balance);
    SplitJoin(RecordFields(s), ',');
  }

  /** Reading back a written record gives the same four attributes. */
  lemma RecordRoundTrip(s: AccountState)
    requires Encodable(s)
    ensures DecodeRecord(EncodeRecord(s)) == Ok(s)
  {
    RecordLineStripped(s);
    RecordLineFields(s);
    DecimalRoundTrip(s.balance);
  }
}
