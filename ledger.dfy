/**
 * What `load_accounts` computes from the accounts file, as a function of its
 * lines, and what that means: the load fails exactly when some line is
 * malformed, each number maps to the account of the last line bearing it,
 * and the password digest read from a line is hashed once more.
 */
module Ledger {
  import opened Wrappers
  import opened Records

  /** The account `load_accounts` builds from a decoded line: the line's digest
      field goes into the account constructor, which hashes it again. */
  function Reloaded(rec: AccountState, hash: string -> string): (s: AccountState)
    ensures s.number == rec.number && s.kind == rec.kind && s.balance == rec.balance
    ensures s.digest == hash(rec.digest)
  {
    rec.(digest := hash(rec.digest))
  }

  /** The result of decoding each line of the file, in file order. */
  function DecodeLines(lines: seq<string>): (rs: seq<Result<AccountState, BankError>>)
    ensures |rs| == |lines|
    decreases |lines|
  {
    if lines == [] then [] else [DecodeRecord(lines[0])] + DecodeLines(lines[1..])
  }

  /** Entry `j` of the decoded lines is line `j` decoded. */
  lemma {:induction false} DecodeLinesAt(lines: seq<string>, j: nat)
    requires j < |lines|
    ensures DecodeLines(lines)[j] == DecodeRecord(lines[j])
    decreases |lines|
  {
    if j > 0 {
      DecodeLinesAt(lines[1..], j - 1);
    }
  }

  /** Decoding one more line appends its decoding. */
  lemma {:induction false} DecodeLinesAppend(lines: seq<string>, line: string)
    ensures DecodeLines(lines + [line]) == DecodeLines(lines) + [DecodeRecord(line)]
    decreases |lines|
  {
    if lines != [] {
      assert (lines + [line])[1..] == lines[1..] + [line];
      DecodeLinesAppend(lines[1..], line);
    }
  }

  /** The dictionary built from decoded lines in order; the first malformed line
      stops the load, and a later line for the same number replaces the entry
      of an earlier one. */
  function LoadDecoded(rs: seq<Result<AccountState, BankError>>, hash: string -> string): Result<map<string, AccountState>, BankError>
    decreases |rs|
  {
    if rs == [] then Ok(map[])
    else
      match LoadDecoded(rs[..|rs| - 1], hash)
      case Err(e) => Err(e)
      case Ok(m) =>
        match rs[|rs| - 1]
        case Err(e) => Err(e)
        case Ok(rec) => Ok(m[rec.number := Reloaded(rec, hash)])
  }

  /** What reading the lines of an existing accounts file yields. */
  function LoadRecords(lines: seq<string>, hash: string -> string): Result<map<string, AccountState>, BankError>
  {
    LoadDecoded(DecodeLines(lines), hash)
  }

  /** `load_accounts`: an absent file gives an empty dictionary. */
  function LoadFile(present: bool, lines: seq<string>, hash: string -> string): Result<map<string, AccountState>, BankError>
  {
    if present then LoadRecords(lines, hash) else Ok(map[])
  }

  /** An absent file and an empty one load alike. */
  lemma LoadAbsentFile(present: bool, lines: seq<string>, hash: string -> string)
    requires present || lines == []
    ensures LoadFile(present, lines, hash) == LoadRecords(lines, hash)
  {
  }

  /** Loading succeeds exactly when every line decodes, and fails only with the
      error of a line. */
  lemma {:induction false} LoadSucceedsIff(rs: seq<Result<AccountState, BankError>>, hash: string -> string)
    ensures LoadDecoded(rs, hash).Ok? <==> forall j :: 0 <= j < |rs| ==> rs[j].Ok?
    ensures LoadDecoded(rs, hash).Err? ==> exists j :: 0 <= j < |rs| && rs[j] == Err(LoadDecoded(rs, hash).error)
    decreases |rs|
  {
    if rs != [] {
      var init := rs[..|rs| - 1];
      LoadSucceedsIff(init, hash);
      assert forall j :: 0 <= j < |init| ==> init[j] == rs[j];
    }
  }

  /** Every loaded entry sits under its own number and holds the digest of a
      decoded line hashed once more. */
  lemma {:induction false} LoadedEntries(rs: seq<Result<AccountState, BankError>>, hash: string -> string)
    requires LoadDecoded(rs, hash).Ok?
    ensures forall k | k in LoadDecoded(rs, hash).value ::
      && LoadDecoded(rs, hash).value[k].number == k
      && exists j :: 0 <= j < |rs| && rs[j].Ok? && LoadDecoded(rs, hash).value[k] == Reloaded(rs[j].value, hash)
    decreases |rs|
  {
    if rs != [] {
      var init := rs[..|rs| - 1];
      LoadedEntries(init, hash);
      assert forall j :: 0 <= j < |init| ==> init[j] == rs[j];
    }
  }

  /** A number is loaded exactly when some line bears it. */
  lemma {:induction false} LoadedNumbers(rs: seq<Result<AccountState, BankError>>, hash: string -> string)
    requires forall j :: 0 <= j < |rs| ==> rs[j].Ok?
    ensures LoadDecoded(rs, hash).Ok?
    ensures forall k :: k in LoadDecoded(rs, hash).value <==> exists j :: 0 <= j < |rs| && rs[j].value.number == k
    decreases |rs|
  {
    LoadSucceedsIff(rs, hash);
    if rs != [] {
      var init := rs[..|rs| - 1];
      assert forall j :: 0 <= j < |init| ==> init[j] == rs[j];
      LoadedNumbers(init, hash);
      forall k | exists j :: 0 <= j < |rs| && rs[j].value.number == k
        ensures k in LoadDecoded(rs, hash).value
      {
        var j :| 0 <= j < |rs| && rs[j].value.number == k;
        if j < |init| {
          assert init[j].value.number == k;
        }
      }
    }
  }

  /** Last record wins: the entry for a line's number is built from that line
      when no later line bears the same number. */
  lemma {:induction false} LastRecordWins(rs: seq<Result<AccountState, BankError>>, hash: string -> string, i: nat)
    requires forall j :: 0 <= j < |rs| ==> rs[j].Ok?
    requires i < |rs|
    requires forall j :: i < j < |rs| ==> rs[j].value.number != rs[i].value.number
    ensures LoadDecoded(rs, hash).Ok?
    ensures rs[i].value.number in LoadDecoded(rs, hash).value
    ensures LoadDecoded(rs, hash).value[rs[i].value.number] == Reloaded(rs[i].value, hash)
    decreases |rs|
  {
    LoadSucceedsIff(rs, hash);
    var init := rs[..|rs| - 1];
    if i < |rs| - 1 {
      assert forall j :: 0 <= j < |init| ==> init[j] == rs[j];
      LastRecordWins(init, hash, i);
    }
  }

  /** Reading one more well-formed line updates the entry of that line's number. */
  lemma LoadAppend(lines: seq<string>, line: string, hash: string -> string)
    requires LoadRecords(lines, hash).Ok?
    requires DecodeRecord(line).Ok?
    ensures LoadRecords(lines + [line], hash)
      == Ok(LoadRecords(lines, hash).value[DecodeRecord(line).value.number := Reloaded(DecodeRecord(line).value, hash)])
  {
    DecodeLinesAppend(lines, line);
    var rs := DecodeLines(lines + [line]);
    assert rs[..|rs| - 1] == DecodeLines(lines);
  }

  /** The same, for reading a file line by line. */
  lemma LoadPrefixStep(lines: seq<string>, i: nat, hash: string -> string)
    requires i < |lines|
    requires LoadRecords(lines[..i], hash).Ok?
    requires DecodeRecord(lines[i]).Ok?
    ensures LoadRecords(lines[..i + 1], hash)
      == Ok(LoadRecords(lines[..i], hash).value[DecodeRecord(lines[i]).value.number := Reloaded(DecodeRecord(lines[i]).value, hash)])
  {
    assert lines[..i + 1] == lines[..i] + [lines[i]];
    LoadAppend(lines[..i], lines[i], hash);
  }

  /** A line that does not decode makes the whole load fail. */
  lemma MalformedLineFailsLoad(lines: seq<string>, i: nat, hash: string -> string)
    requires i < |lines|
    requires DecodeRecord(lines[i]).Err?
    ensures LoadRecords(lines, hash) == Err(MalformedRecord)
  {
    DecodeLinesAt(lines, i);
    LoadSucceedsIff(DecodeLines(lines), hash);
    forall j | 0 <= j < |lines|
      ensures DecodeLines(lines)[j].Err? ==> DecodeLines(lines)[j].error == MalformedRecord
    {
      DecodeLinesAt(lines, j);
    }
  }

  /** Appending the record of an account and reloading updates exactly that
      account's entry: number, type and balance as saved, digest hashed again. */
  lemma ReloadAfterSave(lines: seq<string>, hash: string -> string, s: AccountState)
    requires LoadRecords(lines, hash).Ok?
    requires Encodable(s)
    ensures LoadRecords(lines + [EncodeRecord(s)], hash) == Ok(LoadRecords(lines, hash).value[s.number := Reloaded(s, hash)])
  {
    RecordRoundTrip(s);
    LoadAppend(lines, EncodeRecord(s), hash);
  }

  /** After a save and a reload, a password is accepted exactly when its
      digest equals the digest of the password the account was made with
      hashed twice; the old stored digest text is itself accepted. */
  lemma ReloadRehashesPassword(lines: seq<string>, hash: string -> string, s: AccountState, password: string)
    requires LoadRecords(lines, hash).Ok?
    requires Encodable(s)
    requires Verifies(hash, s.digest, password)
    ensures LoadRecords(lines + [EncodeRecord(s)], hash).Ok?
    ensures s.number in LoadRecords(lines + [EncodeRecord(s)], hash).value
    ensures var reloaded := LoadRecords(lines + [EncodeRecord(s)], hash).value[s.number];
      && (forall p :: Verifies(hash, reloaded.digest, p) <==> hash(p) == hash(hash(password)))
      && Verifies(hash, reloaded.digest, s.digest)
  {
    ReloadAfterSave(lines, hash, s);
  }

  /** When `hash` does not collide on the password and its digest, the
      password the account was made with is refused after a save and a
      reload unless `hash` maps it to itself; with hexadecimal digests, a
      password that is not itself a digest is then always refused. */
  lemma ReloadRefusesPassword(lines: seq<string>, hash: string -> string, s: AccountState, password: string)
    requires LoadRecords(lines, hash).Ok?
    requires Encodable(s)
    requires Verifies(hash, s.digest, password)
    requires hash(hash(password)) == hash(password) ==> hash(password) == password
    ensures LoadRecords(lines + [EncodeRecord(s)], hash).Ok?
    ensures s.number in LoadRecords(lines + [EncodeRecord(s)], hash).value
    ensures var reloaded := LoadRecords(lines + [EncodeRecord(s)], hash).value[s.number];
      && (Verifies(hash, reloaded.digest, password) <==> password == hash(password))
      && (HexHash(hash) && !IsHexDigest(password) ==> !Verifies(hash, reloaded.digest, password))
  {
    ReloadRehashesPassword(lines, hash, s, password);
  }
}
