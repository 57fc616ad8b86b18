/**
 * account_maps.py: a prepared chart of accounts becomes the accounts to
 * create (the report's accounts, then "Equity" and "Equity:Opening
 * Balances") and one opening-balance transaction per account that has a
 * balance, against "Equity:Opening Balances".
 */
module AccountMaps {
  import opened Wrappers
  import opened Strings
  import opened Calendar
  import Seqs
  import AccountPaths
  import TransactionMaps

  /** An account to create: its short name, type, parent path (or "root"), commodity, placeholder flag and description. */
  datatype Account2Move = Account2Move(
    name: string,
    acctType: string,
    parent: string,
    commodity: string,
    placeholder: bool,
    description: string)

  /** One row of the accounts frame, in the columns the caller supplies. */
  datatype AccountRow = AccountRow(
    pathAndName: string,
    description: string,
    acctType: string,
    balance: Option<int>,
    balanceDate: string)

  /** The top-level equity account the opening balances hang under. */
  const EquityName := "Equity"

  /** The last segment of the opening-balances account's full name. */
  const OpeningBalancesName := "Opening Balances"

  /** The full name of the account every opening balance is drawn from: "Equity:Opening Balances". */
  const OpeningBalancesAcct := EquityName + ":" + OpeningBalancesName

  /** The memo of every opening-balance transaction. */
  const DefaultMemo := "Migrated by Move2GnuCash"

  /** The description of every opening-balance transaction. */
  const OpeningBalanceDescription := "Opening Balance"

  /** `acct_placeholder`: an account is a placeholder exactly when its balance is missing. */
  function PlaceholderColumn(balances: seq<Option<int>>): (col: seq<bool>)
    ensures |col| == |balances|
    ensures forall i | 0 <= i < |balances| :: col[i] <==> balances[i].None?
  {
    seq(|balances|, i requires 0 <= i < |balances| => balances[i].None?)
  }

  /** `acct_commodity`: every account is in US dollars. */
  function CommodityColumn(n: nat): (col: seq<string>)
    ensures |col| == n && forall i | 0 <= i < n :: col[i] == "USD"
  {
    seq(n, i => "USD")
  }

  /** `__account2move`: the six columns of one row, copied unchanged. */
  function AccountOf(name: string, acctType: string, parent: string, commodity: string, placeholder: bool, description: string)
    : (a: Account2Move)
    ensures a.name == name && a.acctType == acctType && a.parent == parent
    ensures a.commodity == commodity && a.placeholder == placeholder && a.description == description
  {
    Account2Move(name, acctType, parent, commodity, placeholder, description)
  }

  /** The placeholder root "Equity" the opening balances hang under. */
  function EquityAccount(): Account2Move
  {
    Account2Move("Equity", "EQUITY", "root", "USD", true, "")
  }

  /** "Opening Balances" under "Equity", named by the last segment of its full name. */
  function OpeningBalancesAccount(): Account2Move
  {
    Account2Move(AccountPaths.NameOf(OpeningBalancesAcct), "EQUITY", "Equity", "USD", false, "")
  }

  /** The opening-balances account is named "Opening Balances" and sits exactly where its full name says. */
  lemma OpeningBalancesAccountName()
    ensures OpeningBalancesAccount().name == "Opening Balances"
    ensures OpeningBalancesAccount().parent + ":" + OpeningBalancesAccount().name == OpeningBalancesAcct
    ensures EquityAccount().parent == "root" && EquityAccount().name == OpeningBalancesAccount().parent
  {
    var name := OpeningBalancesName;
    assert forall k | 0 <= k < |name| :: name[k] != ':';
    AccountPaths.PathParts(OpeningBalancesAcct, EquityName, name);
  }

  /** The `acct_path_and_name` column. */
  function PathColumn(rows: seq<AccountRow>): (paths: seq<string>)
    ensures |paths| == |rows| && forall i | 0 <= i < |rows| :: paths[i] == rows[i].pathAndName
  {
    seq(|rows|, i requires 0 <= i < |rows| => rows[i].pathAndName)
  }

  /** The `acct_type` column. */
  function TypeColumn(rows: seq<AccountRow>): (types: seq<string>)
    ensures |types| == |rows| && forall i | 0 <= i < |rows| :: types[i] == rows[i].acctType
  {
    seq(|rows|, i requires 0 <= i < |rows| => rows[i].acctType)
  }

  /** The `acct_description` column. */
  function DescriptionColumn(rows: seq<AccountRow>): (descriptions: seq<string>)
    ensures |descriptions| == |rows| && forall i | 0 <= i < |rows| :: descriptions[i] == rows[i].description
  {
    seq(|rows|, i requires 0 <= i < |rows| => rows[i].description)
  }

  /** The `acct_balance` column. */
  function BalanceColumn(rows: seq<AccountRow>): (balances: seq<Option<int>>)
    ensures |balances| == |rows| && forall i | 0 <= i < |rows| :: balances[i] == rows[i].balance
  {
    seq(|rows|, i requires 0 <= i < |rows| => rows[i].balance)
  }

  /**
   * `accounts_data.apply(__account2move, axis=1).to_list()` followed by the
   * two equity accounts.
   */
  function AccountsFromColumns(
    names: seq<string>, types: seq<string>, parents: seq<string>,
    commodities: seq<string>, placeholders: seq<bool>, descriptions: seq<string>)
    : (accounts: seq<Account2Move>)
    requires |types| == |parents| == |commodities| == |placeholders| == |descriptions| == |names|
    ensures |accounts| == |names| + 2
    ensures forall i | 0 <= i < |names| ::
      && accounts[i].name == names[i] && accounts[i].acctType == types[i] && accounts[i].parent == parents[i]
      && accounts[i].commodity == commodities[i] && accounts[i].placeholder == placeholders[i]
      && accounts[i].description == descriptions[i]
    ensures accounts[|names|] == EquityAccount() && accounts[|names| + 1] == OpeningBalancesAccount()
  {
    seq(|names|, i requires 0 <= i < |names| =>
      AccountOf(names[i], types[i], parents[i], commodities[i], placeholders[i], descriptions[i]))
    + [EquityAccount(), OpeningBalancesAccount()]
  }

  /** The accounts list of `accounts_and_balances`: one account per row, then the two equity accounts. */
  function AccountsOf(rows: seq<AccountRow>): (accounts: seq<Account2Move>)
    ensures |accounts| == |rows| + 2
  {
    var paths := PathColumn(rows);
    AccountsFromColumns(
      AccountPaths.NameColumn(paths), TypeColumn(rows), AccountPaths.ParentColumn(paths),
      CommodityColumn(|rows|), PlaceholderColumn(BalanceColumn(rows)), DescriptionColumn(rows))
  }

  /**
   * Each row's account keeps the row's type and description, is in US
   * dollars, is a placeholder exactly when the row has no balance, and its
   * parent and name put back together give the row's path (a top-level
   * account's parent being "root"); the list ends with "Equity" and
   * "Equity:Opening Balances".
   */
  lemma AccountsOfRows(rows: seq<AccountRow>)
    ensures var accounts := AccountsOf(rows);
      && (forall i | 0 <= i < |rows| ::
            && accounts[i].acctType == rows[i].acctType
            && accounts[i].description == rows[i].description
            && accounts[i].commodity == "USD"
            && (accounts[i].placeholder <==> rows[i].balance.None?)
            && ':' !in accounts[i].name
            && (':' in rows[i].pathAndName ==> accounts[i].parent + ":" + accounts[i].name == rows[i].pathAndName)
            && (':' !in rows[i].pathAndName ==> accounts[i].parent == "root" && accounts[i].name == rows[i].pathAndName))
      && accounts[|rows|] == Account2Move("Equity", "EQUITY", "root", "USD", true, "")
      && accounts[|rows| + 1] == Account2Move("Opening Balances", "EQUITY", "Equity", "USD", false, "")
  {
    OpeningBalancesAccountName();
    var paths := PathColumn(rows);
    var accounts := AccountsOf(rows);
    var names, parents := AccountPaths.NameColumn(paths), AccountPaths.ParentColumn(paths);
    var balances := BalanceColumn(rows);
    forall i | 0 <= i < |rows|
      ensures accounts[i] == AccountOf(names[i], rows[i].acctType, parents[i], "USD", balances[i].None?, rows[i].description)
    {
    }
  }

  /** Rows with a balance: the mask `~acct_balance.isna()`. */
  predicate HasBalance(row: AccountRow)
  {
    row.balance.Some?
  }

  /**
   * `__prepared_balances_transactions`: a row with a balance as a transaction
   * row that moves the balance from "Equity:Opening Balances" into the
   * account, dated on the balance date.
   */
  function BalanceTranRow(row: AccountRow): (t: TransactionMaps.TranRow)
    requires HasBalance(row)
  {
    TransactionMaps.TranRow(
      row.balanceDate, OpeningBalanceDescription, "",
      row.pathAndName, OpeningBalancesAcct, row.balance.value,
      DefaultMemo, "", "")
  }

  /** The transaction rows of all rows with a balance, in order. */
  function BalanceTranRows(rows: seq<AccountRow>): (trs: seq<TransactionMaps.TranRow>)
    ensures |trs| == |Seqs.Filter(rows, HasBalance)|
    ensures forall i | 0 <= i < |trs| ::
      var row := Seqs.Filter(rows, HasBalance)[i];
      && trs[i].acctFrom == row.pathAndName && trs[i].acctTo == OpeningBalancesAcct
      && trs[i].amount == row.balance.value && trs[i].date == row.balanceDate
      && trs[i].description == OpeningBalanceDescription && trs[i].memo == DefaultMemo
      && trs[i].split == "" && trs[i].tags == "" && trs[i].fitid == ""
  {
    var withBalance := Seqs.Filter(rows, HasBalance);
    seq(|withBalance|, i requires 0 <= i < |withBalance| => BalanceTranRow(withBalance[i]))
  }

  /** The transactions list of `accounts_and_balances`. */
  function OpeningTransactions(rows: seq<AccountRow>, parse: string -> Date, now: Timestamp): seq<TransactionMaps.Transaction2Move>
  {
    TransactionMaps.MappedTransactions(BalanceTranRows(rows), parse, now)
  }

  /**
   * The opening transaction a row with a balance calls for: posted on the
   * balance date, described "Opening Balance", noted with the migration
   * memo, without a number, moving the balance into the row's account out
   * of "Equity:Opening Balances".
   */
  function OpeningTransaction(row: AccountRow, parse: string -> Date, now: Timestamp): TransactionMaps.Transaction2Move
    requires HasBalance(row)
  {
    TransactionMaps.Transaction2Move(
      parse(row.balanceDate), now, "USD", OpeningBalanceDescription, DefaultMemo, "",
      [ TransactionMaps.Split2Move(row.pathAndName, row.balance.value, DefaultMemo),
        TransactionMaps.Split2Move(OpeningBalancesAcct, -row.balance.value, DefaultMemo)])
  }

  /** The transaction mapping turns a row's balance transaction row into exactly that opening transaction. */
  lemma OpeningTransactionOf(row: AccountRow, parse: string -> Date, now: Timestamp)
    requires HasBalance(row)
    ensures TransactionMaps.SingleSplitTran(BalanceTranRow(row), parse, now) == OpeningTransaction(row, parse, now)
  {
    assert TransactionMaps.CombinedMemoTags(DefaultMemo, "") == DefaultMemo;
  }

  /**
   * There is one opening transaction per row with a balance, in order, and
   * none for the placeholders.
   */
  lemma OpeningTransactionsFacts(rows: seq<AccountRow>, parse: string -> Date, now: Timestamp)
    ensures var withBalance := Seqs.Filter(rows, HasBalance);
      var ts := OpeningTransactions(rows, parse, now);
      && |ts| == |withBalance|
      && forall i | 0 <= i < |ts| :: HasBalance(withBalance[i]) && ts[i] == OpeningTransaction(withBalance[i], parse, now)
  {
    var trs := BalanceTranRows(rows);
    var withBalance := Seqs.Filter(rows, HasBalance);
    assert forall i | 0 <= i < |trs| :: !TransactionMaps.IsQuickenSplit(trs[i]);
    TransactionMaps.MappedSingleRows(trs, parse, now);
    var ts := TransactionMaps.SingleSplitTransactions(trs, parse, now);
    assert ts == OpeningTransactions(rows, parse, now);
    forall i | 0 <= i < |ts| ensures HasBalance(withBalance[i]) && ts[i] == OpeningTransaction(withBalance[i], parse, now) {
      assert trs[i] == BalanceTranRow(withBalance[i]);
      OpeningTransactionOf(withBalance[i], parse, now);
    }
  }

  /** Every opening transaction balances. */
  lemma OpeningTransactionBalances(row: AccountRow, parse: string -> Date, now: Timestamp)
    requires HasBalance(row)
    ensures TransactionMaps.SplitsSum(OpeningTransaction(row, parse, now).splits) == 0
  {
    OpeningTransactionOf(row, parse, now);
  }

  /**
   * The caller's accounts frame. `accounts_and_balances` writes its
   * placeholder, commodity, parent and name columns in place.
   */
  class AccountsFrame {
    var pathAndName: seq<string>
    var description: seq<string>
    var acctType: seq<string>
    var balance: seq<Option<int>>
    var balanceDate: seq<string>
    var placeholder: seq<bool>
    var commodity: seq<string>
    var parent: seq<string>
    var name: seq<string>

    /** The supplied columns have one cell per row. */
    ghost predicate Valid()
      reads this
    {
      |description| == |acctType| == |balance| == |balanceDate| == |pathAndName|
    }

    /** A frame of the supplied columns, before any column is added. */
    constructor(rows: seq<AccountRow>)
      ensures Valid() && Rows() == rows
      ensures placeholder == [] && commodity == [] && parent == [] && name == []
    {
      pathAndName := seq(|rows|, i requires 0 <= i < |rows| => rows[i].pathAndName);
      description := seq(|rows|, i requires 0 <= i < |rows| => rows[i].description);
      acctType := seq(|rows|, i requires 0 <= i < |rows| => rows[i].acctType);
      balance := seq(|rows|, i requires 0 <= i < |rows| => rows[i].balance);
      balanceDate := seq(|rows|, i requires 0 <= i < |rows| => rows[i].balanceDate);
      placeholder := [];
      commodity := [];
      parent := [];
      name := [];
    }

    /** The supplied columns, row by row. */
    function Rows(): (rows: seq<AccountRow>)
      reads this
      requires Valid()
      ensures |rows| == |pathAndName|
    {
      var paths, descriptions, types, balances, dates := pathAndName, description, acctType, balance, balanceDate;
      seq(|paths|, i requires 0 <= i < |paths| =>
        AccountRow(paths[i], descriptions[i], types[i], balances[i], dates[i]))
    }

    /**
     * `accounts_and_balances`: adds the four account columns to the frame
     * and returns the accounts to create and the opening-balance
     * transactions.
     */
    method AccountsAndBalances(parse: string -> Date, now: Timestamp)
      returns (accounts: seq<Account2Move>, transactions: seq<TransactionMaps.Transaction2Move>)
      requires Valid()
      modifies this
      ensures Valid() && Rows() == old(Rows())
      ensures placeholder == PlaceholderColumn(balance) && commodity == CommodityColumn(|pathAndName|)
      ensures parent == AccountPaths.ParentColumn(pathAndName) && name == AccountPaths.NameColumn(pathAndName)
      ensures accounts == AccountsOf(Rows())
      ensures transactions == OpeningTransactions(Rows(), parse, now)
    {
      placeholder := PlaceholderColumn(balance);
      commodity := CommodityColumn(|pathAndName|);
      parent := AccountPaths.ParentColumn(pathAndName);
      name := AccountPaths.NameColumn(pathAndName);
      var rows := Rows();
      assert PathColumn(rows) == pathAndName;
      assert TypeColumn(rows) == acctType && DescriptionColumn(rows) == description && BalanceColumn(rows) == balance;
      accounts := AccountsFromColumns(name, acctType, parent, commodity, placeholder, description);
      transactions := OpeningTransactions(rows, parse, now);
    }
  }

  /**
   * The three-account report of the unit tests: "Assets" and "Assets:Current
   * Assets" without a balance, "Assets:Current Assets:Checking" with 1000.
   */
  function SimpleRows(): seq<AccountRow>
  {
    [ AccountRow("Assets", "My Assets", "ASSET", None, "12/31/2016"),
      AccountRow("Assets:Current Assets", "My Current Assets", "ASSET", None, "12/31/2016"),
      AccountRow("Assets:Current Assets:Checking", "My Checking Account", "BANK", Some(1000), "12/31/2016") ]
  }

  /** The single opening transaction the unit tests expect for `SimpleRows`. */
  lemma SimpleOpeningTransactions(parse: string -> Date, now: Timestamp)
    ensures OpeningTransactions(SimpleRows(), parse, now) == [
      TransactionMaps.Transaction2Move(
        parse("12/31/2016"), now, "USD", "Opening Balance", "Migrated by Move2GnuCash", "",
        [ TransactionMaps.Split2Move("Assets:Current Assets:Checking", 1000, "Migrated by Move2GnuCash"),
          TransactionMaps.Split2Move("Equity:Opening Balances", -1000, "Migrated by Move2GnuCash")])]
  {
    var rows := SimpleRows();
    assert OpeningBalancesAcct == "Equity:Opening Balances";
    assert Seqs.Filter(rows, HasBalance) == [rows[2]];
    OpeningTransactionsFacts(rows, parse, now);
  }
}
