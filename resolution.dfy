/**
 * Resolving the short account names of Quicken's transaction export against
 * the accounts of an existing GnuCash book (`_list_of_candidates`,
 * `_manual_choice`, `_chosen_acct` and `_account_from` of
 * data_preparation.py). A name resolves to the non-placeholder book accounts
 * whose full name ends with it segment-wise; none is an error, one is used
 * as is, and between several the user picks by number on standard input.
 */
module Resolution {
  import opened Wrappers
  import opened Strings
  import opened Calendar

  /** An account of the book: its full colon path and whether it is a placeholder. */
  datatype BookAccount = BookAccount(fullname: string, placeholder: bool)

  /** A transaction already in the book: only its post date is used. */
  datatype BookTransaction = BookTransaction(postDate: Date)

  /** The parts of a GnuCash book the preparation reads. */
  datatype Book = Book(accounts: seq<BookAccount>, transactions: seq<BookTransaction>)

  /** The full names of the book's non-placeholder accounts, in book order. */
  function ExistingAccounts(accounts: seq<BookAccount>): (names: seq<string>)
    ensures |names| <= |accounts|
  {
    if accounts == [] then []
    else
      var rest := ExistingAccounts(accounts[1..]);
      if accounts[0].placeholder then rest else [accounts[0].fullname] + rest
  }

  /** Every existing account is the full name of a non-placeholder account of the book. */
  lemma {:induction false} ExistingAccountInBook(accounts: seq<BookAccount>, i: nat)
    requires i < |ExistingAccounts(accounts)|
    ensures exists j | 0 <= j < |accounts| ::
      accounts[j].fullname == ExistingAccounts(accounts)[i] && !accounts[j].placeholder
  {
    var tail := accounts[1..];
    var rest := ExistingAccounts(tail);
    if !accounts[0].placeholder && i == 0 {
      assert accounts[0].fullname == ExistingAccounts(accounts)[0];
    } else {
      var k := if accounts[0].placeholder then i else i - 1;
      assert ExistingAccounts(accounts)[i] == rest[k];
      ExistingAccountInBook(tail, k);
      var j :| 0 <= j < |tail| && tail[j].fullname == rest[k] && !tail[j].placeholder;
      assert accounts[j + 1] == tail[j];
    }
  }

  /** Every non-placeholder account of the book is an existing account. */
  lemma {:induction false} BookAccountExisting(accounts: seq<BookAccount>, j: nat)
    requires j < |accounts| && !accounts[j].placeholder
    ensures accounts[j].fullname in ExistingAccounts(accounts)
  {
    var tail := accounts[1..];
    if j > 0 {
      assert accounts[j] == tail[j - 1];
      BookAccountExisting(tail, j - 1);
    }
  }

  /** `name` ends `entry` segment-wise: it is the whole entry or follows its last few ':'. */
  predicate Resolves(entry: string, name: string)
  {
    entry == name || EndsWith(entry, ":" + name)
  }

  /** The message of the ValueError for a name no account resolves. */
  function MissingAccountError(name: string): string
  {
    "Failure. Missing account for " + name
  }

  /**
   * `_list_of_candidates`: the existing accounts that `name` resolves to, in
   * their order; an error when there are none.
   */
  function ListOfCandidates(name: string, existing: seq<string>): (r: Result<seq<string>, string>)
    ensures r.Failure? ==> r.error == MissingAccountError(name)
    ensures r.Success? ==> |r.value| >= 1
  {
    var matches := FullStringRightMatch(existing, name);
    if |matches| == 0 then Failure(MissingAccountError(name)) else Success(matches)
  }

  /**
   * The list fails exactly when no existing account resolves the name, and
   * otherwise holds every existing account that does and nothing else.
   */
  lemma ListOfCandidatesSpec(name: string, existing: seq<string>)
    ensures var r := ListOfCandidates(name, existing);
      r.Failure? <==> forall i | 0 <= i < |existing| :: !Resolves(existing[i], name)
    ensures var r := ListOfCandidates(name, existing);
      r.Success? ==> forall i | 0 <= i < |r.value| :: r.value[i] in existing && Resolves(r.value[i], name)
    ensures var r := ListOfCandidates(name, existing);
      r.Success? ==> forall i | 0 <= i < |existing| && Resolves(existing[i], name) :: existing[i] in r.value
  {
    var matches := FullStringRightMatch(existing, name);
    if |matches| > 0 {
      assert matches[0] in existing;
      var i :| 0 <= i < |existing| && existing[i] == matches[0];
      assert Resolves(existing[i], name);
    }
  }

  /**
   * Some non-placeholder account of the book is the name itself or ends with
   * ":" followed by the name.
   */
  predicate HasCandidate(book: Book, name: string)
  {
    exists j | 0 <= j < |book.accounts| :: !book.accounts[j].placeholder && Resolves(book.accounts[j].fullname, name)
  }

  /** A name has candidates among the existing accounts exactly when the book holds one for it. */
  lemma HasCandidateIff(book: Book, name: string)
    ensures ListOfCandidates(name, ExistingAccounts(book.accounts)).Success? <==> HasCandidate(book, name)
  {
    ListOfCandidatesSpec(name, ExistingAccounts(book.accounts));
    if HasCandidate(book, name) {
      CandidateOfBookAccount(book, name);
    }
    if ListOfCandidates(name, ExistingAccounts(book.accounts)).Success? {
      BookAccountOfCandidate(book, name);
    }
  }

  /** An account of the book the name resolves to is among the existing accounts. */
  lemma CandidateOfBookAccount(book: Book, name: string)
    requires HasCandidate(book, name)
    ensures exists e | 0 <= e < |ExistingAccounts(book.accounts)| :: Resolves(ExistingAccounts(book.accounts)[e], name)
  {
    var existing := ExistingAccounts(book.accounts);
    var j :| 0 <= j < |book.accounts| && !book.accounts[j].placeholder && Resolves(book.accounts[j].fullname, name);
    BookAccountExisting(book.accounts, j);
    assert book.accounts[j].fullname in existing;
    var e :| 0 <= e < |existing| && existing[e] == book.accounts[j].fullname;
    assert Resolves(existing[e], name);
  }

  /** An existing account the name resolves to is a non-placeholder account of the book. */
  lemma BookAccountOfCandidate(book: Book, name: string)
    requires exists e | 0 <= e < |ExistingAccounts(book.accounts)| :: Resolves(ExistingAccounts(book.accounts)[e], name)
    ensures HasCandidate(book, name)
  {
    var existing := ExistingAccounts(book.accounts);
    var e :| 0 <= e < |existing| && Resolves(existing[e], name);
    ExistingAccountInBook(book.accounts, e);
    var j :| 0 <= j < |book.accounts| && book.accounts[j].fullname == existing[e] && !book.accounts[j].placeholder;
    assert !book.accounts[j].placeholder && Resolves(book.accounts[j].fullname, name);
  }

  /** `_manual_choice` accepts exactly the answers "1" to "n", as `str` writes them. */
  predicate ValidAnswer(line: string, n: nat)
  {
    exists k | 1 <= k <= n :: line == NatToString(k)
  }

  /** `int(user_input)` of an accepted answer: the number of an option, which `str` writes back as the answer. */
  function AnswerNumber(line: string, n: nat): (k: nat)
    requires ValidAnswer(line, n)
    ensures 1 <= k <= n && line == NatToString(k)
  {
    var k :| 1 <= k <= n && line == NatToString(k);
    DecimalValueOfNatToString(k);
    DecimalValue(line)
  }

  /** The option picked and the input lines not yet read. */
  datatype Choice = Choice(option: string, rest: seq<string>)

  /**
   * What `_manual_choice` returns after reading the lines of `input` in turn:
   * the option numbered by the first accepted answer, or `None` when the
   * input ends first (`input()` raises EOFError). The option is one of the
   * options, and at least one line has been read.
   */
  function ChoiceFromInput(options: seq<string>, input: seq<string>): (r: Option<Choice>)
    ensures r.Some? ==> r.value.option in options && |r.value.rest| < |input|
    decreases |input|
  {
    if input == [] then None
    else if ValidAnswer(input[0], |options|) then Some(Choice(options[AnswerNumber(input[0], |options|) - 1], input[1..]))
    else ChoiceFromInput(options, input[1..])
  }

  /** There is no choice exactly when no line of the input is an accepted answer. */
  lemma {:induction false} ChoiceNoneIffNoAnswer(options: seq<string>, input: seq<string>)
    ensures ChoiceFromInput(options, input).None? <==> forall j | 0 <= j < |input| :: !ValidAnswer(input[j], |options|)
    decreases |input|
  {
    if input != [] && !ValidAnswer(input[0], |options|) {
      ChoiceNoneIffNoAnswer(options, input[1..]);
      assert forall j | 1 <= j < |input| :: input[j] == input[1..][j - 1];
    }
  }

  /**
   * The choice is the option numbered by the first accepted line, and the
   * lines after it are left unread.
   */
  lemma {:induction false} ChoiceAtFirstAnswer(options: seq<string>, input: seq<string>, j: nat)
    requires j < |input| && ValidAnswer(input[j], |options|)
    requires forall m | 0 <= m < j :: !ValidAnswer(input[m], |options|)
    ensures ChoiceFromInput(options, input) == Some(Choice(options[AnswerNumber(input[j], |options|) - 1], input[j + 1..]))
    decreases j
  {
    if j > 0 {
      assert forall m | 0 <= m < j - 1 :: input[1..][m] == input[m + 1];
      ChoiceAtFirstAnswer(options, input[1..], j - 1);
      assert input[1..][j - 1] == input[j];
      assert input[1..][j..] == input[j + 1..];
    }
  }

  /**
   * `_manual_choice`: prompt until the answer is an option's number, then
   * return that option. `input` holds the lines the user will type.
   */
  method ManualChoice(options: seq<string>, input: seq<string>) returns (r: Option<Choice>)
    ensures r == ChoiceFromInput(options, input)
  {
    var userInput := "";
    var rest := input;
    while !ValidAnswer(userInput, |options|)
      invariant ValidAnswer(userInput, |options|) ==>
        ChoiceFromInput(options, input) == Some(Choice(options[AnswerNumber(userInput, |options|) - 1], rest))
      invariant !ValidAnswer(userInput, |options|) ==> ChoiceFromInput(options, input) == ChoiceFromInput(options, rest)
      decreases |rest|
    {
      if rest == [] {
        return None;
      }
      userInput := rest[0];
      rest := rest[1..];
    }
    r := Some(Choice(options[AnswerNumber(userInput, |options|) - 1], rest));
  }

  /**
   * `_chosen_acct` on a non-empty candidate list: the only candidate without
   * reading input, or the user's choice among several.
   */
  function ChosenAcct(candidates: seq<string>, input: seq<string>): (r: Option<Choice>)
    requires |candidates| >= 1
    ensures |candidates| == 1 ==> r == Some(Choice(candidates[0], input))
    ensures |candidates| > 1 ==> r == ChoiceFromInput(candidates, input)
    ensures r.Some? ==> r.value.option in candidates
  {
    if |candidates| > 1 then ChoiceFromInput(candidates, input) else Some(Choice(candidates[0], input))
  }

  /** The message of the EOFError `input()` raises at the end of the input. */
  const InputEndedError := "EOF when reading a line"

  /** Resolved names, one per row, and the input lines left unread. */
  datatype Resolved = Resolved(names: seq<string>, rest: seq<string>)

  /**
   * The candidate lists of all rows, computed before any choice; the first
   * row without a candidate stops everything.
   */
  function CandidateLists(names: seq<string>, existing: seq<string>): (r: Result<seq<seq<string>>, string>)
    ensures r.Success? ==> |r.value| == |names|
    ensures r.Success? ==> forall i | 0 <= i < |r.value| :: |r.value[i]| >= 1
  {
    if names == [] then Success([])
    else
      var first := ListOfCandidates(names[0], existing);
      if first.Failure? then Failure(first.error)
      else
        var rest := CandidateLists(names[1..], existing);
        if rest.Failure? then Failure(rest.error) else Success([first.value] + rest.value)
  }

  /** Each computed candidate list is the row's own. */
  lemma CandidateListsAt(names: seq<string>, existing: seq<string>)
    ensures var r := CandidateLists(names, existing);
      r.Success? ==> forall i | 0 <= i < |names| :: ListOfCandidates(names[i], existing) == Success(r.value[i])
  {
    var r := CandidateLists(names, existing);
    if r.Success? {
      forall i | 0 <= i < |names| ensures ListOfCandidates(names[i], existing) == Success(r.value[i]) {
        CandidateListAt(names, existing, i);
      }
    }
  }

  /** The `i`-th computed candidate list is that of the `i`-th row. */
  lemma {:induction false} CandidateListAt(names: seq<string>, existing: seq<string>, i: nat)
    requires i < |names| && CandidateLists(names, existing).Success?
    ensures ListOfCandidates(names[i], existing) == Success(CandidateLists(names, existing).value[i])
    decreases i
  {
    var lists := CandidateLists(names, existing).value;
    if i == 0 {
      CandidateListsCons(names, existing);
      assert lists[0] == ListOfCandidates(names[0], existing).value;
    } else {
      var tail := names[1..];
      CandidateListsShift(names, existing, i);
      CandidateListAt(tail, existing, i - 1);
      assert names[i] == tail[i - 1];
      assert lists[i] == CandidateLists(tail, existing).value[i - 1];
      assert ListOfCandidates(tail[i - 1], existing) == Success(lists[i]);
    }
  }

  /** Past the first row, a successful computation is the computation on the remaining rows. */
  lemma CandidateListsShift(names: seq<string>, existing: seq<string>, i: nat)
    requires 0 < i < |names| && CandidateLists(names, existing).Success?
    ensures CandidateLists(names[1..], existing).Success?
    ensures CandidateLists(names, existing).value[i] == CandidateLists(names[1..], existing).value[i - 1]
  {
    CandidateListsCons(names, existing);
  }

  /** A successful computation is the first row's list followed by the others'. */
  lemma CandidateListsCons(names: seq<string>, existing: seq<string>)
    requires |names| > 0 && CandidateLists(names, existing).Success?
    ensures ListOfCandidates(names[0], existing).Success?
    ensures CandidateLists(names[1..], existing).Success?
    ensures CandidateLists(names, existing).value
      == [ListOfCandidates(names[0], existing).value] + CandidateLists(names[1..], existing).value
  {
  }

  /** When every row has candidates, computing the lists succeeds. */
  lemma {:induction false} CandidateListsSucceed(names: seq<string>, existing: seq<string>)
    requires forall i | 0 <= i < |names| :: ListOfCandidates(names[i], existing).Success?
    ensures CandidateLists(names, existing).Success?
  {
    if names != [] {
      assert forall i | 0 <= i < |names| - 1 :: names[1..][i] == names[i + 1];
      CandidateListsSucceed(names[1..], existing);
    }
  }

  /** The first row without a candidate names the account reported missing. */
  lemma {:induction false} CandidateListsFirstMissing(names: seq<string>, existing: seq<string>, k: nat)
    requires k < |names| && ListOfCandidates(names[k], existing).Failure?
    requires forall m | 0 <= m < k :: ListOfCandidates(names[m], existing).Success?
    ensures CandidateLists(names, existing) == Failure(MissingAccountError(names[k]))
    decreases k
  {
    if k > 0 {
      assert forall m | 0 <= m < k - 1 :: names[1..][m] == names[m + 1];
      CandidateListsFirstMissing(names[1..], existing, k - 1);
    }
  }

  /** `candidates.apply(_chosen_acct)`: the rows' choices in order, reading the input as they go. */
  function ChooseAll(candidates: seq<seq<string>>, input: seq<string>): (r: Result<Resolved, string>)
    requires forall i | 0 <= i < |candidates| :: |candidates[i]| >= 1
    ensures r.Success? ==> |r.value.names| == |candidates|
    ensures r.Success? ==> forall i | 0 <= i < |candidates| :: r.value.names[i] in candidates[i]
    ensures r.Failure? ==> r.error == InputEndedError
  {
    if candidates == [] then Success(Resolved([], input))
    else
      var first := ChosenAcct(candidates[0], input);
      if first.None? then Failure(InputEndedError)
      else
        var tail := candidates[1..];
        var rest := ChooseAll(tail, first.value.rest);
        if rest.Failure? then rest
        else
          var names := [first.value.option] + rest.value.names;
          assert forall i | 1 <= i < |candidates| :: names[i] == rest.value.names[i - 1] && candidates[i] == tail[i - 1];
          Success(Resolved(names, rest.value.rest))
  }

  /**
   * `_account_from`: every name of the column resolved against the book's
   * non-placeholder accounts.
   */
  function AccountFrom(book: Book, names: seq<string>, input: seq<string>): (r: Result<Resolved, string>)
    ensures r.Success? ==> |r.value.names| == |names|
  {
    var candidates := CandidateLists(names, ExistingAccounts(book.accounts));
    if candidates.Failure? then Failure(candidates.error)
    else ChooseAll(candidates.value, input)
  }

  /** `fullname` is the full name of a non-placeholder account of the book. */
  predicate InBook(book: Book, fullname: string)
  {
    exists j | 0 <= j < |book.accounts| :: book.accounts[j].fullname == fullname && !book.accounts[j].placeholder
  }

  /**
   * When resolution succeeds, every row gets a non-placeholder account of the
   * book that the row's name resolves to.
   */
  lemma AccountFromResolves(book: Book, names: seq<string>, input: seq<string>)
    ensures var r := AccountFrom(book, names, input);
      r.Success? ==>
        && |r.value.names| == |names|
        && forall i | 0 <= i < |names| :: Resolves(r.value.names[i], names[i]) && InBook(book, r.value.names[i])
  {
    var existing := ExistingAccounts(book.accounts);
    var candidates := CandidateLists(names, existing);
    CandidateListsAt(names, existing);
    if candidates.Success? {
      var r := ChooseAll(candidates.value, input);
      if r.Success? {
        forall i | 0 <= i < |names|
          ensures Resolves(r.value.names[i], names[i]) && InBook(book, r.value.names[i])
        {
          ListOfCandidatesSpec(names[i], existing);
          assert r.value.names[i] in candidates.value[i];
          var e :| 0 <= e < |existing| && existing[e] == r.value.names[i];
          ExistingAccountInBook(book.accounts, e);
        }
      }
    }
  }

  /**
   * The first name the book holds no account for stops the resolution with
   * the ValueError naming it, before any question is asked.
   */
  lemma AccountFromMissing(book: Book, names: seq<string>, input: seq<string>, k: nat)
    requires k < |names| && !HasCandidate(book, names[k])
    requires forall m | 0 <= m < k :: HasCandidate(book, names[m])
    ensures AccountFrom(book, names, input) == Failure(MissingAccountError(names[k]))
  {
    var existing := ExistingAccounts(book.accounts);
    HasCandidateIff(book, names[k]);
    forall m | 0 <= m < k ensures ListOfCandidates(names[m], existing).Success? {
      HasCandidateIff(book, names[m]);
    }
    CandidateListsFirstMissing(names, existing, k);
  }

  /**
   * When the book holds an account for every name, resolution fails only by
   * running out of input.
   */
  lemma AccountFromEndsOnlyAtEof(book: Book, names: seq<string>, input: seq<string>)
    requires forall i | 0 <= i < |names| :: HasCandidate(book, names[i])
    ensures AccountFrom(book, names, input).Success? || AccountFrom(book, names, input).error == InputEndedError
  {
    var existing := ExistingAccounts(book.accounts);
    forall i | 0 <= i < |names| ensures ListOfCandidates(names[i], existing).Success? {
      HasCandidateIff(book, names[i]);
    }
    CandidateListsSucceed(names, existing);
  }

  /** A name with a single candidate resolves to it without reading any input. */
  lemma SingleCandidateReadsNothing(book: Book, name: string, account: string, input: seq<string>)
    requires ListOfCandidates(name, ExistingAccounts(book.accounts)) == Success([account])
    ensures AccountFrom(book, [name], input) == Success(Resolved([account], input))
  {
    SingleCandidateList(name, ExistingAccounts(book.accounts), account);
    SingleCandidateChosen(account, input);
  }

  /** One name with one candidate gives one one-element candidate list. */
  lemma SingleCandidateList(name: string, existing: seq<string>, account: string)
    requires ListOfCandidates(name, existing) == Success([account])
    ensures CandidateLists([name], existing) == Success([[account]])
  {
    assert [name][1..] == [];
    assert CandidateLists([], existing) == Success([]);
    assert [[account]] + [] == [[account]];
  }

  /** Choosing from one one-element candidate list reads no input. */
  lemma SingleCandidateChosen(account: string, input: seq<string>)
    ensures ChooseAll([[account]], input) == Success(Resolved([account], input))
  {
    assert [[account]][1..] == [];
    assert ChosenAcct([account], input) == Some(Choice(account, input));
    assert ChooseAll([], input) == Success(Resolved([], input));
    assert [account] + [] == [account];
  }
}
