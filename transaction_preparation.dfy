/**
 * `prepared_transactions` of data_preparation.py: the rows of Quicken's
 * transaction export are cut off at the book's balance date (investment rows
 * excepted), their amounts are negated, memo and tags are combined,
 * transfers are redirected to their transfer account, and the rows are split
 * into investment and other rows whose account names are then resolved
 * against the book.
 */
module TransactionPreparation {
  import opened Wrappers
  import opened Strings
  import opened Calendar
  import Seqs
  import Resolution

  /** One row of the transaction export, in the program's own column names. */
  datatype RawTransaction = RawTransaction(
    date: string,
    description: string,
    split: string,
    account: string,
    acctFrom: string,
    transfer: string,
    amount: int,
    memoNotes: string,
    tags: string,
    fitid: string)

  /** A row after the column rewrites: the columns `prepared_transactions` adds or replaces. */
  datatype PreparedRow = PreparedRow(
    source: RawTransaction,
    tranDate: Date,
    account: string,
    tranAmount: int,
    tranMemo: string,
    tranNum: string)

  /** A non-investment row with both of its accounts resolved. */
  datatype NonInvestRow = NonInvestRow(row: PreparedRow, tranAcctTo: string, tranAcctFrom: string)

  /** An investment row with its "from" account resolved. */
  datatype InvestRow = InvestRow(row: PreparedRow, investAcct: string)

  /** Both frames of the result, and the answers left unread on standard input. */
  datatype Prepared = Prepared(nonInvest: seq<NonInvestRow>, invest: seq<InvestRow>, rest: seq<string>)

  const InvestmentsPrefix := "Investments:"
  const TransferPrefix := "Transfer:"

  /** The message of the IndexError raised when the book has no transaction. */
  const NoBookTransactionError := "list index out of range"

  /** The cut-off: a row is kept when it is dated after the balance date or belongs to an investment account. */
  predicate Kept(row: RawTransaction, parse: string -> Date, balanceDate: Date)
  {
    parse(row.date) > balanceDate || StartsWith(row.account, InvestmentsPrefix)
  }

  /**
   * The column rewrites of one kept row: the date parsed, the FITID as the
   * number, memo and tags combined, the amount negated, and a transfer's
   * account replaced by its transfer target.
   */
  function Prepare(row: RawTransaction, parse: string -> Date): (p: PreparedRow)
    ensures p.source == row && p.tranDate == parse(row.date) && p.tranNum == row.fitid
    ensures p.tranAmount + row.amount == 0
    ensures StartsWith(p.tranMemo, row.memoNotes) && EndsWith(p.tranMemo, row.tags)
    ensures StartsWith(row.account, TransferPrefix) ==> p.account == row.transfer
    ensures !StartsWith(row.account, TransferPrefix) ==> p.account == row.account
  {
    var account := if StartsWith(row.account, TransferPrefix) then row.transfer else row.account;
    PreparedRow(row, parse(row.date), account, -row.amount, CombinedStringsBy(row.memoNotes, row.tags, ";"), row.fitid)
  }

  /** The kept rows, rewritten, in export order. */
  function PreparedRows(rows: seq<RawTransaction>, parse: string -> Date, balanceDate: Date): (ps: seq<PreparedRow>)
    ensures |ps| == |Seqs.Filter(rows, (r: RawTransaction) => Kept(r, parse, balanceDate))|
    ensures forall i | 0 <= i < |ps| :: ps[i] == Prepare(ps[i].source, parse) && Kept(ps[i].source, parse, balanceDate)
    ensures forall i | 0 <= i < |ps| :: ps[i].source in rows
    ensures forall i | 0 <= i < |ps| ::
      ps[i] == Prepare(Seqs.Filter(rows, (r: RawTransaction) => Kept(r, parse, balanceDate))[i], parse)
  {
    var kept := Seqs.Filter(rows, (r: RawTransaction) => Kept(r, parse, balanceDate));
    seq(|kept|, i requires 0 <= i < |kept| => Prepare(kept[i], parse))
  }

  /** The mask `account.str.startswith('Investments:')`, on the rewritten account. */
  predicate IsInvest(p: PreparedRow)
  {
    StartsWith(p.account, InvestmentsPrefix)
  }

  /** Its negation. */
  predicate IsNonInvest(p: PreparedRow)
  {
    !IsInvest(p)
  }

  /** The `account` column. */
  function AccountColumn(ps: seq<PreparedRow>): (col: seq<string>)
    ensures |col| == |ps| && forall i | 0 <= i < |ps| :: col[i] == ps[i].account
  {
    seq(|ps|, i requires 0 <= i < |ps| => ps[i].account)
  }

  /** The `acct_from` column. */
  function AcctFromColumn(ps: seq<PreparedRow>): (col: seq<string>)
    ensures |col| == |ps| && forall i | 0 <= i < |ps| :: col[i] == ps[i].source.acctFrom
  {
    seq(|ps|, i requires 0 <= i < |ps| => ps[i].source.acctFrom)
  }

  /**
   * `_prepared_non_invest`: the "to" accounts are resolved first, then the
   * "from" accounts, reading the user's answers in that order.
   */
  function PreparedNonInvest(book: Resolution.Book, ps: seq<PreparedRow>, input: seq<string>)
    : (r: Result<(seq<NonInvestRow>, seq<string>), string>)
    ensures r.Success? ==> |r.value.0| == |ps| && forall i | 0 <= i < |ps| :: r.value.0[i].row == ps[i]
  {
    var to := Resolution.AccountFrom(book, AccountColumn(ps), input);
    if to.Failure? then Failure(to.error)
    else
      var from := Resolution.AccountFrom(book, AcctFromColumn(ps), to.value.rest);
      if from.Failure? then Failure(from.error)
      else Success((seq(|ps|, i requires 0 <= i < |ps| => NonInvestRow(ps[i], to.value.names[i], from.value.names[i])), from.value.rest))
  }

  /** `_prepared_invest`: only the "from" accounts are resolved. */
  function PreparedInvest(book: Resolution.Book, ps: seq<PreparedRow>, input: seq<string>)
    : (r: Result<(seq<InvestRow>, seq<string>), string>)
    ensures r.Success? ==> |r.value.0| == |ps| && forall i | 0 <= i < |ps| :: r.value.0[i].row == ps[i]
  {
    var from := Resolution.AccountFrom(book, AcctFromColumn(ps), input);
    if from.Failure? then Failure(from.error)
    else Success((seq(|ps|, i requires 0 <= i < |ps| => InvestRow(ps[i], from.value.names[i])), from.value.rest))
  }

  /**
   * `prepared_transactions`: the balance date is the post date of the book's
   * first transaction; the non-investment frame is resolved before the
   * investment frame.
   */
  function PreparedTransactions(book: Resolution.Book, rows: seq<RawTransaction>, parse: string -> Date, input: seq<string>)
    : Result<Prepared, string>
  {
    if |book.transactions| == 0 then Failure(NoBookTransactionError)
    else
      var ps := PreparedRows(rows, parse, book.transactions[0].postDate);
      var nonInvest := PreparedNonInvest(book, Seqs.Filter(ps, IsNonInvest), input);
      if nonInvest.Failure? then Failure(nonInvest.error)
      else
        var invest := PreparedInvest(book, Seqs.Filter(ps, IsInvest), nonInvest.value.1);
        if invest.Failure? then Failure(invest.error)
        else Success(Prepared(nonInvest.value.0, invest.value.0, invest.value.1))
  }

  /** The kept rows of a book with a balance date, rewritten. */
  function KeptRows(book: Resolution.Book, rows: seq<RawTransaction>, parse: string -> Date): seq<PreparedRow>
    requires |book.transactions| > 0
  {
    PreparedRows(rows, parse, book.transactions[0].postDate)
  }

  /** A successful preparation holds the non-investment rows, then the investment rows, of the kept rows, each in order. */
  lemma PreparedParts(book: Resolution.Book, rows: seq<RawTransaction>, parse: string -> Date, input: seq<string>)
    requires PreparedTransactions(book, rows, parse, input).Success?
    ensures |book.transactions| > 0
    ensures var p := PreparedTransactions(book, rows, parse, input).value;
      var ni := Seqs.Filter(KeptRows(book, rows, parse), IsNonInvest);
      |p.nonInvest| == |ni| && forall i | 0 <= i < |ni| :: p.nonInvest[i].row == ni[i]
    ensures var p := PreparedTransactions(book, rows, parse, input).value;
      var inv := Seqs.Filter(KeptRows(book, rows, parse), IsInvest);
      |p.invest| == |inv| && forall i | 0 <= i < |inv| :: p.invest[i].row == inv[i]
  {
  }

  /**
   * The two frames split the kept rows: their sizes add up to the number of
   * rows that pass the cut-off, every investment row's account lies under
   * "Investments:" and no other row's does.
   */
  lemma PreparedTransactionsPartition(book: Resolution.Book, rows: seq<RawTransaction>, parse: string -> Date, input: seq<string>)
    requires PreparedTransactions(book, rows, parse, input).Success?
    ensures var p := PreparedTransactions(book, rows, parse, input).value;
      && |book.transactions| > 0
      && |p.nonInvest| + |p.invest| == |Seqs.Filter(rows, (r: RawTransaction) => Kept(r, parse, book.transactions[0].postDate))|
      && (forall i | 0 <= i < |p.invest| :: StartsWith(p.invest[i].row.account, InvestmentsPrefix))
      && (forall i | 0 <= i < |p.nonInvest| :: !StartsWith(p.nonInvest[i].row.account, InvestmentsPrefix))
  {
    PreparedParts(book, rows, parse, input);
    var ps := KeptRows(book, rows, parse);
    Seqs.FilterComplementLength(ps, IsNonInvest, IsInvest);
  }

  /**
   * Every kept row passed the cut-off and was rewritten from a row of the
   * export: dated after the balance date or under "Investments:", amount
   * negated.
   */
  lemma PreparedTransactionsRewrite(book: Resolution.Book, rows: seq<RawTransaction>, parse: string -> Date, input: seq<string>)
    requires PreparedTransactions(book, rows, parse, input).Success?
    ensures var p := PreparedTransactions(book, rows, parse, input).value;
      && |book.transactions| > 0
      && (forall i | 0 <= i < |p.nonInvest| ::
            var row := p.nonInvest[i].row;
            && row.source in rows && row == Prepare(row.source, parse)
            && (parse(row.source.date) > book.transactions[0].postDate || StartsWith(row.source.account, InvestmentsPrefix)))
      && (forall i | 0 <= i < |p.invest| ::
            var row := p.invest[i].row;
            && row.source in rows && row == Prepare(row.source, parse)
            && (parse(row.source.date) > book.transactions[0].postDate || StartsWith(row.source.account, InvestmentsPrefix)))
  {
    PreparedParts(book, rows, parse, input);
    var ps := KeptRows(book, rows, parse);
    var p := PreparedTransactions(book, rows, parse, input).value;
    forall i | 0 <= i < |p.nonInvest| ensures p.nonInvest[i].row in ps {
      assert p.nonInvest[i].row == Seqs.Filter(ps, IsNonInvest)[i];
    }
    forall i | 0 <= i < |p.invest| ensures p.invest[i].row in ps {
      assert p.invest[i].row == Seqs.Filter(ps, IsInvest)[i];
    }
  }

  /**
   * Investment rows bypass the cut-off: whatever their date they are kept,
   * keep their account and go to the investment frame.
   */
  lemma InvestmentRowsBypassCutoff(row: RawTransaction, parse: string -> Date, balanceDate: Date)
    requires StartsWith(row.account, InvestmentsPrefix)
    ensures Kept(row, parse, balanceDate)
    ensures Prepare(row, parse).account == row.account && IsInvest(Prepare(row, parse))
  {
    assert row.account[0] == InvestmentsPrefix[0] == 'I';
    assert !StartsWith(row.account, TransferPrefix) by {
      assert TransferPrefix[0] == 'T';
    }
  }

  /** Without a transaction in the book there is no balance date, and the preparation fails. */
  lemma NoBookTransactionFails(book: Resolution.Book, rows: seq<RawTransaction>, parse: string -> Date, input: seq<string>)
    requires |book.transactions| == 0
    ensures PreparedTransactions(book, rows, parse, input) == Failure(NoBookTransactionError)
  {
  }

  /**
   * The first kept non-investment row whose account the book holds nothing
   * for stops the preparation with the ValueError naming that account,
   * whatever the user would have answered.
   */
  lemma MissingAccountFails(book: Resolution.Book, rows: seq<RawTransaction>, parse: string -> Date, input: seq<string>, k: nat)
    requires |book.transactions| > 0
    requires var ni := Seqs.Filter(KeptRows(book, rows, parse), IsNonInvest);
      && k < |ni| && !Resolution.HasCandidate(book, ni[k].account)
      && forall m | 0 <= m < k :: Resolution.HasCandidate(book, ni[m].account)
    ensures PreparedTransactions(book, rows, parse, input)
      == Failure(Resolution.MissingAccountError(Seqs.Filter(KeptRows(book, rows, parse), IsNonInvest)[k].account))
  {
    var ni := Seqs.Filter(KeptRows(book, rows, parse), IsNonInvest);
    var col := AccountColumn(ni);
    Resolution.AccountFromMissing(book, col, input, k);
  }

  /**
   * Every resolved account is a non-placeholder account of the book that
   * the row's own name resolves to: the "to" and "from" accounts of a
   * non-investment row, the "from" account of an investment row.
   */
  lemma PreparedTransactionsResolve(book: Resolution.Book, rows: seq<RawTransaction>, parse: string -> Date, input: seq<string>)
    requires PreparedTransactions(book, rows, parse, input).Success?
    ensures var p := PreparedTransactions(book, rows, parse, input).value;
      && (forall i | 0 <= i < |p.nonInvest| ::
            && Resolution.Resolves(p.nonInvest[i].tranAcctTo, p.nonInvest[i].row.account)
            && Resolution.InBook(book, p.nonInvest[i].tranAcctTo)
            && Resolution.Resolves(p.nonInvest[i].tranAcctFrom, p.nonInvest[i].row.source.acctFrom)
            && Resolution.InBook(book, p.nonInvest[i].tranAcctFrom))
      && (forall i | 0 <= i < |p.invest| ::
            && Resolution.Resolves(p.invest[i].investAcct, p.invest[i].row.source.acctFrom)
            && Resolution.InBook(book, p.invest[i].investAcct))
  {
    var ps := KeptRows(book, rows, parse);
    var ni := Seqs.Filter(ps, IsNonInvest);
    var inv := Seqs.Filter(ps, IsInvest);
    var to := Resolution.AccountFrom(book, AccountColumn(ni), input);
    Resolution.AccountFromResolves(book, AccountColumn(ni), input);
    var from := Resolution.AccountFrom(book, AcctFromColumn(ni), to.value.rest);
    Resolution.AccountFromResolves(book, AcctFromColumn(ni), to.value.rest);
    var invFrom := Resolution.AccountFrom(book, AcctFromColumn(inv), from.value.rest);
    Resolution.AccountFromResolves(book, AcctFromColumn(inv), from.value.rest);
  }
}
