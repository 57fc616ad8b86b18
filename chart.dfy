/**
 * The chart-of-accounts pipelines of data_preparation.py: `prepared_balances`
 * (Quicken's net-worth report, with opening-balance transaction columns) and
 * `prepared_category_accounts` (Quicken's category report). Both start from
 * the prepared names, mark accounts without a balance as placeholders, guess
 * every account's GnuCash type (`_add_account_types_of`) and split the path
 * into parent and short name.
 */
module Chart {
  import opened Wrappers
  import opened Strings
  import opened Classifier
  import opened Calendar
  import AccountPaths
  import AccountNames
  import Frames

  /** The description and memo every migrated account and balance carries. */
  const MigratedNote := "Migrated by Move2GnuCash"

  /** The message of the IndexError raised for a path in which no keyword occurs. */
  const NoCandidateError := "list index out of range"

  /** One account of the prepared chart. */
  datatype ChartRow = ChartRow(
    pathAndName: string,
    balance: Option<int>,
    placeholder: bool,
    selectedType: AccountType,
    commodity: string,
    description: string,
    parent: string,
    name: string)

  /**
   * One row of `prepared_balances`: the account (its path is the renamed
   * column `tran_acct_to`) and the opening-balance transaction columns.
   */
  datatype BalanceRow = BalanceRow(
    account: ChartRow,
    tranDescription: string,
    tranSplit: string,
    tranAcctFrom: string,
    tranAmount: Option<int>,
    tranMemo: string,
    tranDate: Date,
    tranNum: int)

  /**
   * `_add_account_types_of`: the selected type of every row, or `None` where
   * some row's path holds no keyword.
   */
  function SelectedTypes(paths: seq<string>, placeholders: seq<bool>): (r: Option<seq<AccountType>>)
    requires |paths| == |placeholders|
    ensures r.Some? <==> forall i | 0 <= i < |paths| :: Classify(paths[i], placeholders[i]).Some?
    ensures r.Some? ==> |r.value| == |paths|
    ensures r.Some? ==> forall i | 0 <= i < |paths| :: Classify(paths[i], placeholders[i]) == Some(r.value[i])
  {
    if exists i | 0 <= i < |paths| :: Classify(paths[i], placeholders[i]).None? then None
    else Some(seq(|paths|, i requires 0 <= i < |paths| => Classify(paths[i], placeholders[i]).value))
  }

  /** The path column of the prepared names. */
  function Paths(named: seq<AccountNames.NamedRow>): (paths: seq<string>)
    ensures |paths| == |named|
  {
    seq(|named|, i requires 0 <= i < |named| => named[i].pathAndName)
  }

  /** The placeholder column: an account is a placeholder when its balance is missing. */
  function Placeholders(named: seq<AccountNames.NamedRow>): (flags: seq<bool>)
    ensures |flags| == |named|
  {
    seq(|named|, i requires 0 <= i < |named| => named[i].balance.None?)
  }

  /** The account columns both pipelines derive from the prepared names. */
  function ChartOf(named: seq<AccountNames.NamedRow>): (chart: Option<seq<ChartRow>>)
    ensures chart.Some? ==> |chart.value| == |named|
  {
    var paths := Paths(named);
    var placeholders := Placeholders(named);
    var types := SelectedTypes(paths, placeholders);
    if types.None? then None
    else
      var parents := AccountPaths.ParentColumn(paths);
      var names := AccountPaths.NameColumn(paths);
      Some(seq(|named|, i requires 0 <= i < |named| =>
        ChartRow(paths[i], named[i].balance, placeholders[i], types.value[i], "USD", MigratedNote, parents[i], names[i])))
  }

  /**
   * Some path of `named` cannot be classified: by `Classify`'s contract, no
   * keyword of any type occurs in it.
   */
  predicate Unclassifiable(named: seq<AccountNames.NamedRow>)
  {
    exists i | 0 <= i < |named| :: Classify(named[i].pathAndName, named[i].balance.None?).None?
  }

  /** The chart fails exactly when some path cannot be classified. */
  lemma ChartOfFails(named: seq<AccountNames.NamedRow>)
    ensures ChartOf(named).None? <==> Unclassifiable(named)
  {
    var paths := Paths(named);
    var placeholders := Placeholders(named);
    if ChartOf(named).None? {
      var i :| 0 <= i < |paths| && Classify(paths[i], placeholders[i]).None?;
      assert paths[i] == named[i].pathAndName && placeholders[i] == named[i].balance.None?;
    }
    if Unclassifiable(named) {
      var i :| 0 <= i < |named| && Classify(named[i].pathAndName, named[i].balance.None?).None?;
      assert paths[i] == named[i].pathAndName && placeholders[i] == named[i].balance.None?;
    }
  }

  /**
   * Every account of the chart keeps its path and balance, is a placeholder
   * exactly when it has no balance, gets a type one of whose keywords occurs in
   * its path, is in US dollars, and has the parent and name `rsplit(":", 1)`
   * gives.
   */
  lemma ChartRowFacts(named: seq<AccountNames.NamedRow>, i: nat)
    requires ChartOf(named).Some? && i < |named|
    ensures |ChartOf(named).value| == |named|
    ensures var row := ChartOf(named).value[i];
      && row.pathAndName == named[i].pathAndName
      && row.balance == named[i].balance
      && (row.placeholder <==> row.balance.None?)
      && Mentions(Upper(row.pathAndName), row.selectedType)
      && Classify(row.pathAndName, row.placeholder) == Some(row.selectedType)
      && row.commodity == "USD"
      && row.description == MigratedNote
      && (':' in row.pathAndName ==> row.parent + ":" + row.name == row.pathAndName)
      && (':' !in row.pathAndName ==> row.parent == "root" && row.name == row.pathAndName)
  {
    var paths := Paths(named);
    var placeholders := Placeholders(named);
    assert paths[i] == named[i].pathAndName;
    assert placeholders[i] == named[i].balance.None?;
  }

  /** The rows of `prepared_balances`, from the chart and the report date. */
  function BalanceRows(chart: seq<ChartRow>, asOf: Date): (rows: seq<BalanceRow>)
    ensures |rows| == |chart|
  {
    seq(|chart|, i requires 0 <= i < |chart| =>
      BalanceRow(
        chart[i], MigratedNote, "", "Opening Balances",
        if chart[i].selectedType == Stock then Some(0) else chart[i].balance,
        MigratedNote, asOf, 1))
  }

  /** `prepared_balances` on the report's columns and its "as of" date. */
  function PreparedBalancesOf(roots: seq<Option<string>>, accounts: seq<Option<string>>, balances: seq<Option<int>>, asOf: Date)
    : Result<seq<BalanceRow>, string>
    requires |roots| == |accounts| == |balances|
  {
    var named := AccountNames.PreparedAccountNames(roots, accounts, balances);
    if named.Failure? then Failure(named.error)
    else
      var chart := ChartOf(named.value);
      if chart.None? then Failure(NoCandidateError)
      else Success(BalanceRows(chart.value, asOf))
  }

  /**
   * Every opening-balance row: the account is a placeholder exactly when it
   * has no balance; a brokerage (STOCK) account's amount is 0 and every other
   * account's amount is its balance; the transaction comes from "Opening
   * Balances", is number 1, is dated on the report's date and is no split.
   */
  lemma BalanceRowFacts(chart: seq<ChartRow>, asOf: Date, i: nat)
    requires i < |chart|
    requires chart[i].placeholder <==> chart[i].balance.None?
    ensures var row := BalanceRows(chart, asOf)[i];
      && row.account == chart[i]
      && (row.account.placeholder <==> row.account.balance.None?)
      && (row.account.selectedType == Stock ==> row.tranAmount == Some(0))
      && (row.account.selectedType != Stock ==> row.tranAmount == row.account.balance)
      && row.tranAcctFrom == "Opening Balances"
      && row.tranNum == 1
      && row.tranDate == asOf
      && row.tranSplit == ""
      && row.tranMemo == MigratedNote && row.tranDescription == MigratedNote
  {
  }

  /**
   * `prepared_balances` fails exactly when the report's first row has no
   * root, or some account path holds no keyword; otherwise it has one row per
   * non-subtotal row of the report.
   */
  lemma PreparedBalancesOutcome(roots: seq<Option<string>>, accounts: seq<Option<string>>, balances: seq<Option<int>>, asOf: Date)
    requires |roots| == |accounts| == |balances|
    ensures PreparedBalancesOf(roots, accounts, balances, asOf).Failure? <==>
      || (roots != [] && roots[0].None?)
      || (&& AccountNames.PreparedAccountNames(roots, accounts, balances).Success?
          && Unclassifiable(AccountNames.PreparedAccountNames(roots, accounts, balances).value))
    ensures PreparedBalancesOf(roots, accounts, balances, asOf).Success? ==>
      |PreparedBalancesOf(roots, accounts, balances, asOf).value| == |AccountNames.PreparedAccountNames(roots, accounts, balances).value|
  {
    AccountNames.PreparedAccountNamesFails(roots, accounts, balances);
    var named := AccountNames.PreparedAccountNames(roots, accounts, balances);
    if named.Success? {
      ChartOfFails(named.value);
    }
  }

  /**
   * `prepared_balances` in place: the caller's `root` column is filled
   * downwards, and the prepared rows are returned.
   */
  method PreparedBalances(roots: array<Option<string>>, accounts: seq<Option<string>>, balances: seq<Option<int>>, asOf: Date)
    returns (r: Result<seq<BalanceRow>, string>)
    requires roots.Length == |accounts| == |balances|
    modifies roots
    ensures roots[..] == Frames.ForwardFilled(old(roots[..]))
    ensures r == PreparedBalancesOf(old(roots[..]), accounts, balances, asOf)
  {
    var named := AccountNames.PrepareAccountNames(roots, accounts, balances);
    if named.Failure? {
      return Failure(named.error);
    }
    var chart := ChartOf(named.value);
    if chart.None? {
      return Failure(NoCandidateError);
    }
    r := Success(BalanceRows(chart.value, asOf));
  }

  /** `prepared_category_accounts` on the report's columns. */
  function PreparedCategoryAccountsOf(roots: seq<Option<string>>, accounts: seq<Option<string>>, balances: seq<Option<int>>)
    : Result<seq<ChartRow>, string>
    requires |roots| == |accounts| == |balances|
  {
    var named := AccountNames.PreparedAccountNames(roots, accounts, balances);
    if named.Failure? then Failure(named.error)
    else
      var chart := ChartOf(named.value);
      if chart.None? then Failure(NoCandidateError) else Success(chart.value)
  }

  /**
   * A category chart whose paths all lie under an income or an expense root
   * has only INCOME and EXPENSE accounts.
   */
  lemma CategoryTypes(named: seq<AccountNames.NamedRow>, i: nat)
    requires ChartOf(named).Some? && i < |named|
    requires StartsWith(Upper(named[i].pathAndName), "INCOME") || StartsWith(Upper(named[i].pathAndName), "EXPENSE")
    ensures ChartOf(named).value[i].selectedType in {Income, Expense}
  {
    ChartRowFacts(named, i);
    LeadingIncomeOrExpense(named[i].pathAndName, named[i].balance.None?);
  }

  /**
   * `prepared_category_accounts` in place: the caller's `root` column is
   * filled downwards, and the prepared accounts are returned.
   */
  method PreparedCategoryAccounts(roots: array<Option<string>>, accounts: seq<Option<string>>, balances: seq<Option<int>>)
    returns (r: Result<seq<ChartRow>, string>)
    requires roots.Length == |accounts| == |balances|
    modifies roots
    ensures roots[..] == Frames.ForwardFilled(old(roots[..]))
    ensures r == PreparedCategoryAccountsOf(old(roots[..]), accounts, balances)
  {
    var named := AccountNames.PrepareAccountNames(roots, accounts, balances);
    if named.Failure? {
      return Failure(named.error);
    }
    var chart := ChartOf(named.value);
    if chart.None? {
      return Failure(NoCandidateError);
    }
    r := Success(chart.value);
  }
}
