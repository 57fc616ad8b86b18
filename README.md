# move2gnucash migration engine in Dafny

This project models the migration engine of move2gnucash, a tool that turns
Quicken CSV exports into GnuCash accounts and double-entry transactions. The
model covers three parts:

- **Chart of accounts** (`data_preparation.py`):
  - Quicken's " - "-indented report rows are rebuilt into full colon paths. An
    empty level is filled from the row above, and ":Total" subtotal rows are
    removed.
  - Each account's GnuCash type is guessed from keywords in its path, and
    `chosen_type` picks one of the keyword hits by the account's placeholder
    status.
  - The balances pipeline adds opening-balance columns; the categories
    pipeline does not.
- **Transaction preparation** (`data_preparation.py`):
  - Quicken's transaction rows are cut off at the book's balance date, except
    investment rows.
  - Amounts are negated, memo and tags are combined, and transfer rows are
    redirected to their transfer target.
  - The rows are split into investment and other rows, and their account
    names are resolved against the book's non-placeholder accounts. Zero
    matches is an error, one match is taken as is, and several matches are
    put to the user.
- **Mapping to GnuCash records** (`transaction_maps.py`, `account_maps.py`):
  - Every row becomes a mirrored pair of splits.
  - Quicken split rows ("S") are grouped by date and description, in
    first-seen order, into one transaction per group.
  - The account list is the report's accounts followed by "Equity" and
    "Equity:Opening Balances". There is one opening transaction per account
    with a balance.

Modules, in dependency order:

- `Wrappers`: `Option` and `Result`.
- `Seqs`: an order-preserving filter.
- `Strings`: the string helpers of `move2gnucash.utils` and the Python string
  operations.
- `Calendar`: abstract dates and timestamps.
- `AccountPaths`: `_parent_of` and `_name_of`.
- `Frames`: pandas' forward fill, on a column and in place on an array.
- `Classifier`: the account-type guess.
- `AccountNames`: the rebuilt paths.
- `Chart`: `prepared_balances` and `prepared_category_accounts`.
- `Resolution`: candidates, the prompt loop and `_account_from`.
- `TransactionPreparation`: `prepared_transactions`.
- `TransactionMaps`: `transaction_maps.py`.
- `AccountMaps`: `account_maps.py`.

## How the source is represented

- **Data frames**:
  - A data frame becomes a sequence of row records.
  - The columns a function writes in place become the fields of a class, or
    an array, that its method changes.
  - `AccountMaps.AccountsFrame` is the caller's accounts frame; the `root`
    column filled by `_prepared_account_names` is an array.
- **Values**:
  - A missing cell (NaN) is `None`, in the `root`, `account` and `balance`
    columns of a report. A root-only header row has no `account` cell, so it
    has no levels at any depth.
  - Amounts are integers, for example cents.
  - Dates are abstract comparable values (`Calendar.Date`).
- **Injected behaviour**:
  - `strptime` is an injected `parse` function.
  - The wall clock `get_now` is an injected timestamp `now`.
  - The lines the user types at the account prompt are a sequence of strings
    `input`. When it runs out, `input()` raises EOFError "EOF when reading a
    line".
- **Errors**: every exception the source raises on an input is a `Failure`
  carrying the exception's message.

## Where the code and its documented design differ (the model follows the code)

- **Balance date.** The balance date is the post date of the book's *first*
  transaction, `book.transactions[0]`, not the earliest one. A book without
  transactions raises IndexError.
- **Split signs.** In a split pair the "from" leg carries the amount as given
  (after the preparation's negation) and the "to" leg carries its negation.
  The documented design has it the other way round.
- **Transfer rows.** A transfer row is recognised by its account starting
  with "Transfer:", not by a populated transfer field. The account is then
  replaced by the transfer cell, whatever it holds.

## Model

| member | source | states |
|---|---|---|
| AccountPaths.NameOf | src/move2gnucash/data_preparation.py:24-28 | the short name has no ':', ends the path, and is the whole path when the path has no ':' |
| AccountPaths.ParentOf | src/move2gnucash/data_preparation.py:17-21 | "root" for a path without ':'; otherwise parent + ":" + name rebuilds the path |
| AccountPaths.ChildPath | src/move2gnucash/data_preparation.py:17-28 | inverse: a colon-free name appended to any parent is split back into exactly that parent and name |
| AccountPaths.PathParts | src/move2gnucash/account_maps.py:27-38 | a path written as parent, ':' and a colon-free name has that parent and that name |
| AccountPaths.LastColonOfChild | src/move2gnucash/data_preparation.py:19 | `rsplit(":", 1)` cuts `parent:name` at the ':' just before a colon-free name |
| AccountPaths.SplitOfChild | src/move2gnucash/data_preparation.py:19-28 | appending ':' and a colon-free name adds exactly that name as the last segment |
| AccountPaths.RsplitIsLastSegment | src/move2gnucash/data_preparation.py:19-28 | the rsplit name is the last `split(":")` segment, and the parent is the other segments re-joined by ':' |
| AccountPaths.ParentColumn | src/move2gnucash/data_preparation.py:17-21 | one parent per path: "root" for a path without ':', otherwise the prefix that rebuilds the path with the name |
| AccountPaths.NameColumn | src/move2gnucash/data_preparation.py:24-28 | one colon-free name per path, each ending its path, the whole path when it has no ':' |
| AccountPaths.ColumnsAsWrittenAgree | src/move2gnucash/data_preparation.py:17-28 | the column code as written gives the corrected columns exactly when some path holds a ':' |
| AccountPaths.TopLevelColumnFails | src/move2gnucash/account_maps.py:27-38 | a column of top-level paths makes the code as written fail where "root" and the path itself are intended |
| Strings.CombinedStringsBy | tests/unit/test_utils.py:31-39 | the result starts with the first string and ends with the second; empty only when both are; an empty side yields the other unchanged; between two non-empty strings stand exactly the separator and one space |
| Strings.CombinedStringsByExamples | tests/unit/test_utils.py:37-39 | the three cases of the utilities' tests |
| Strings.CombinedSplitsBack | src/move2gnucash/data_preparation.py:183-185 | inverse: a combined memo (without ';') and tags split at "; " give back the memo and the tags |
| Strings.CustomJoinExamples | tests/unit/test_utils.py:48-51 | the four cases of the utilities' tests |
| Strings.CustomJoinIsColonJoin | tests/unit/test_utils.py:42-51 | `custom_join` is ':' followed by the ':'-join of the non-empty levels, or "" when all are empty |
| Strings.CustomJoinSplitsBack | tests/unit/test_utils.py:42-51 | inverse: splitting a custom-joined path after its leading ':' gives back the non-empty colon-free levels |
| Strings.Split | src/move2gnucash/data_preparation.py:40 | `str.split` gives at least one piece, and no piece holds the separator |
| Strings.JoinSplit | src/move2gnucash/data_preparation.py:40 | joining the pieces of a split with the separator gives back the string |
| Strings.SplitJoinChar | src/move2gnucash/data_preparation.py:40 | splitting a join of separator-free pieces gives back the pieces |
| Strings.RightMatchesIsSegmentSuffix | tests/unit/test_data_preparation.py:186-197 | a right match on whole ':'-segments holds exactly when the entry is the name or ends with ':' and the name |
| Strings.FullStringRightMatch | tests/unit/test_data_preparation.py:186-197 | exactly the existing entries that are the name or end with ':' and the name |
| Strings.Upper | src/move2gnucash/data_preparation.py:115 | same length; each lower-case ASCII letter becomes its upper-case letter; every other character unchanged (ASCII-only, see Left out) |
| Strings.IndexOf | src/move2gnucash/data_preparation.py:40 | none exactly when the text does not occur; otherwise its first occurrence |
| Strings.NatToString | src/move2gnucash/data_preparation.py:206 | `str(k)` is a non-empty string of decimal digits |
| Strings.DecimalValueOfNatToString | src/move2gnucash/data_preparation.py:206-209 | `int(str(k)) == k`, so the accepted answer names the option it numbers |
| Frames.ForwardFilled | src/move2gnucash/data_preparation.py:64 | same length; every present cell keeps its value |
| Frames.FilledAtMissing | src/move2gnucash/data_preparation.py:44-46 | a filled cell is missing exactly when every cell up to it is missing |
| Frames.FilledAtNearest | src/move2gnucash/data_preparation.py:44-46 | a filled cell holds the nearest present cell at or above it, and only missing cells lie in between |
| Frames.FilledAtPrefix | src/move2gnucash/data_preparation.py:44-46 | a filled cell depends only on the rows up to it |
| Frames.ForwardFilledIdempotent | src/move2gnucash/data_preparation.py:64 | filling a filled column changes nothing |
| Frames.ForwardFill | src/move2gnucash/data_preparation.py:64 | the in-place fill leaves the array equal to the filled column |
| Frames.FilledAtMapPresent | src/move2gnucash/data_preparation.py:42-47 | relabelling present cells commutes with the fill |
| AccountNames.Width | src/move2gnucash/data_preparation.py:40 | no row has more levels than the expanded frame has columns, and an empty report has none |
| AccountNames.WidthAttained | src/move2gnucash/data_preparation.py:40 | some row of a non-empty report has exactly as many levels as the frame has columns, so the width is the longest row's |
| AccountNames.SubPaths | src/move2gnucash/data_preparation.py:39-51 | the sub-path of every row, specified level by level; stated by `FilledLevelRule`, `InheritedLevel`, `CustomJoinOfEmpties`, `SubPathOfCompleteRow` and `MissingAccountCell` |
| AccountNames.FilledLevelRule | src/move2gnucash/data_preparation.py:42-47 | an absent level is empty, a named level stays, an empty level repeats the row above (nothing in the first row) |
| AccountNames.InheritedLevel | src/move2gnucash/data_preparation.py:44-46 | an inherited level is the level of the nearest row above that names one, with only empty levels in between |
| AccountNames.CustomJoinOfEmpties | src/move2gnucash/data_preparation.py:49 | all-empty levels give an empty sub-path |
| AccountNames.SubPathOfCompleteRow | src/move2gnucash/data_preparation.py:39-51 | a row with an account cell that names all its levels gets ':' followed by its levels joined by ':' |
| AccountNames.MissingAccountCell | src/move2gnucash/data_preparation.py:40-49 | a row without an account cell is absent ("Skip") at every depth, inherits nothing from the row above, and gets the empty sub-path, as written and corrected |
| AccountNames.FilledLevelColumn | src/move2gnucash/data_preparation.py:44-46 | one depth's column after the in-place forward fill is the specified filled column |
| AccountNames.RowOfFilledColumns | src/move2gnucash/data_preparation.py:49 | the row read across the filled columns is the row's filled levels, and joins to its specified sub-path |
| AccountNames.SubPathsFromRawRefs | src/move2gnucash/data_preparation.py:39-51 | the per-depth in-place fill, then the join, gives the specified sub-paths |
| AccountNames.SubPathsAgreeWithoutSkipLevel | src/move2gnucash/data_preparation.py:42-47 | without a level named "Skip", the code as written and the corrected sub-paths agree |
| AccountNames.SkipLevelErased | src/move2gnucash/data_preparation.py:42-47 | a level named "Skip" is erased as written where ":Skip" is intended |
| AccountNames.TotalLinesRemoved | src/move2gnucash/data_preparation.py:54-56 | kept rows are rows of the input without ":Total"; every such input row is kept |
| AccountNames.TotalLinesRemovedInOrder | src/move2gnucash/data_preparation.py:54-56 | removal distributes over concatenation, so the order is kept; a lone row stays exactly when it is no subtotal |
| AccountNames.PreparedAccountNames | src/move2gnucash/data_preparation.py:59-72 | roots filled forward, each row's root and sub-path joined, subtotal rows dropped; stated by `PreparedAccountNamesFails`, `PreparedAccountName` and `TotalLinesRemovedInOrder` |
| AccountNames.PreparedAccountNamesFails | src/move2gnucash/data_preparation.py:59-72 | the preparation fails exactly when the first row has no root |
| AccountNames.PreparedAccountName | src/move2gnucash/data_preparation.py:64-70 | each non-subtotal row's path is the nearest root above it followed by its own sub-path |
| AccountNames.HeaderRowIsItsRoot | src/move2gnucash/data_preparation.py:64-70 | a root-only header row (no account cell) is prepared as the bare root it inherits, not as the levels of the row above |
| AccountNames.PrepareAccountNames | src/move2gnucash/data_preparation.py:59-72 | the caller's root column is filled in place, and the result is the specified preparation |
| Classifier.FirstSynonymAtOccurs | src/move2gnucash/data_preparation.py:118-119 | a keyword found occurs at the position; none is found exactly when none occurs there |
| Classifier.MatchAtHit | src/move2gnucash/data_preparation.py:113-119 | a hit is a keyword of the entry whose type it reports, and it occurs at the position |
| Classifier.MatchAtMiss | src/move2gnucash/data_preparation.py:113-119 | there is no hit exactly when no keyword of the table occurs at the position |
| Classifier.MatchAtEntry | src/move2gnucash/data_preparation.py:98-119 | the alternation reports the first entry in table order with a keyword at the position |
| Classifier.Scan | src/move2gnucash/data_preparation.py:116-122 | `findall` of the keyword alternation from a position on; stated by `ScanStepNone`, `ScanStepSome`, `ScanSound` and `ScanComplete` |
| Classifier.CandidateTypes | src/move2gnucash/data_preparation.py:114-122 | the candidate types of an upper-cased path; stated by `ScanSound`, `ScanComplete` and `CandidateTypesIgnoreSynonymOrder` |
| Classifier.ScanStepNone | src/move2gnucash/data_preparation.py:118-119 | without a hit, `findall` moves on one character |
| Classifier.ScanStepSome | src/move2gnucash/data_preparation.py:118-119 | a hit is reported and the scan resumes after it, without overlap |
| Classifier.ScanSound | src/move2gnucash/data_preparation.py:116-121 | every candidate type has one of its keywords in the path |
| Classifier.ScanComplete | src/move2gnucash/data_preparation.py:116-121 | the candidate list is empty only when no keyword of any type is in the path |
| Classifier.KeywordsWellFormed | src/move2gnucash/data_preparation.py:98-113 | no keyword is empty, and each entry lists exactly its type's keywords |
| Classifier.EveryTypeListed | src/move2gnucash/data_preparation.py:98-112 | every type has an entry in the table |
| Classifier.PluralOnly | src/move2gnucash/data_preparation.py:98-112 | two keywords of one type that share a start differ at most by a trailing "S" |
| Classifier.ScanIgnoresSynonymOrder | src/move2gnucash/data_preparation.py:98-121 | any order of the keyword sets gives the same candidate types as the canonical order |
| Classifier.CandidateTypesIgnoreSynonymOrder | src/move2gnucash/data_preparation.py:113-121 | the candidate types do not depend on Python's set iteration order |
| Classifier.ChosenType | src/move2gnucash/data_preparation.py:82-96 | the result is a candidate: the first if INCOME/EXPENSE, else the second-to-last for a placeholder (the only one if alone), else the last |
| Classifier.Classify | src/move2gnucash/data_preparation.py:115-124 | fails exactly when no type is mentioned in the upper-cased path; otherwise a type mentioned there |
| Classifier.LeadingIncomeOrExpense | src/move2gnucash/data_preparation.py:87-89 | a path starting with INCOME (or EXPENSE) is classified INCOME (or EXPENSE), placeholder or not |
| Chart.SelectedTypes | src/move2gnucash/data_preparation.py:115-124 | defined exactly when every row classifies; then one type per row, the row's own |
| Chart.ChartOf | src/move2gnucash/data_preparation.py:131-148 | the shared chart columns of both pipelines; stated by `ChartOfFails` and `ChartRowFacts` |
| Chart.ChartOfFails | src/move2gnucash/data_preparation.py:136-148 | on the corrected parent and name columns, the chart fails exactly when some path cannot be classified (the KeyError of a chart without ':' is in Left out) |
| Chart.ChartRowFacts | src/move2gnucash/data_preparation.py:136-148 | each account keeps its path and balance, is a placeholder exactly without a balance, has a type mentioned in its path, is in USD, and has the rsplit parent and name |
| Chart.BalanceRowFacts | src/move2gnucash/data_preparation.py:149-157 | STOCK amount is 0, any other amount is the balance; from "Opening Balances", number 1, dated as of the report, no split |
| Chart.PreparedBalancesOf | src/move2gnucash/data_preparation.py:127-159 | `prepared_balances` on values; stated by `PreparedBalancesOutcome` and `BalanceRowFacts` |
| Chart.PreparedBalancesOutcome | src/move2gnucash/data_preparation.py:127-159 | on the corrected parent and name columns, fails exactly when the first row has no root or some path cannot be classified; otherwise one row per prepared name (the KeyError of a chart without ':' is in Left out) |
| Chart.PreparedBalances | src/move2gnucash/data_preparation.py:127-159 | the root column is filled in place, and the result is the specified pipeline |
| Chart.PreparedCategoryAccountsOf | src/move2gnucash/data_preparation.py:162-180 | `prepared_category_accounts` on values; stated by `ChartOfFails`, `ChartRowFacts` and `CategoryTypes` |
| Chart.CategoryTypes | tests/unit/test_data_preparation.py:100-111 | categories under an income or expense root are typed INCOME or EXPENSE |
| Chart.PreparedCategoryAccounts | src/move2gnucash/data_preparation.py:162-180 | the root column is filled in place, and the result is the specified pipeline |
| Resolution.ExistingAccounts | src/move2gnucash/data_preparation.py:225 | the non-placeholder accounts' full names, no more than the book's accounts; stated by `ExistingAccountInBook` and `BookAccountExisting` |
| Resolution.ExistingAccountInBook | src/move2gnucash/data_preparation.py:225 | every existing account is the full name of a non-placeholder account of the book |
| Resolution.BookAccountExisting | src/move2gnucash/data_preparation.py:225 | every non-placeholder account of the book is an existing account |
| Resolution.ListOfCandidates | src/move2gnucash/data_preparation.py:188-192 | a failure carries "Failure. Missing account for NAME"; a success is a non-empty list |
| Resolution.ListOfCandidatesSpec | src/move2gnucash/data_preparation.py:188-192 | fails exactly when no existing account resolves the name; otherwise lists every existing account that does, and only those |
| Resolution.HasCandidateIff | src/move2gnucash/data_preparation.py:224-229 | candidates exist exactly when a non-placeholder account of the book is the name or ends with ':' and the name |
| Resolution.AnswerNumber | src/move2gnucash/data_preparation.py:206-209 | an accepted answer is the number of an option, between 1 and the option count |
| Resolution.ChoiceFromInput | src/move2gnucash/data_preparation.py:195-210 | a choice is one of the options and consumes at least one line |
| Resolution.ChoiceNoneIffNoAnswer | src/move2gnucash/data_preparation.py:206-207 | input runs out exactly when no line is an accepted answer |
| Resolution.ChoiceAtFirstAnswer | src/move2gnucash/data_preparation.py:206-210 | the choice is the option numbered by the first accepted line; later lines are left unread |
| Resolution.ManualChoice | src/move2gnucash/data_preparation.py:195-210 | the prompt loop returns the specified choice |
| Resolution.ChosenAcct | src/move2gnucash/data_preparation.py:213-221 | a single candidate is taken without reading input; with several, the user's choice, which is a candidate |
| Resolution.CandidateLists | src/move2gnucash/data_preparation.py:229 | on success, one non-empty candidate list per name |
| Resolution.CandidateListsAt | src/move2gnucash/data_preparation.py:229 | each list is that name's own candidates |
| Resolution.CandidateListAt | src/move2gnucash/data_preparation.py:229 | the list at a given row is that row's name's own candidates |
| Resolution.CandidateListsSucceed | src/move2gnucash/data_preparation.py:229 | when every name has candidates, computing the lists succeeds |
| Resolution.CandidateListsFirstMissing | src/move2gnucash/data_preparation.py:229 | the first name without candidates gives its missing-account error |
| Resolution.ChooseAll | src/move2gnucash/data_preparation.py:231 | one choice per row, each among its candidates; the only failure is the end of input |
| Resolution.AccountFrom | src/move2gnucash/data_preparation.py:224-232 | on success, one resolved account per name |
| Resolution.AccountFromResolves | src/move2gnucash/data_preparation.py:224-232 | every resolved account is a non-placeholder account of the book that its row's name resolves to |
| Resolution.AccountFromMissing | src/move2gnucash/data_preparation.py:224-232 | the first name the book cannot resolve fails everything with its error, before any question |
| Resolution.AccountFromEndsOnlyAtEof | src/move2gnucash/data_preparation.py:224-232 | when every name has a candidate, resolution fails only at end of input |
| Resolution.SingleCandidateReadsNothing | src/move2gnucash/data_preparation.py:213-218 | a name with one candidate resolves to it and reads no input |
| TransactionPreparation.Prepare | src/move2gnucash/data_preparation.py:272-283 | date parsed, number is the FITID, amount negated, memo then tags, a "Transfer:" account replaced by its transfer target and any other account kept |
| TransactionPreparation.PreparedRows | src/move2gnucash/data_preparation.py:264-283 | the i-th output row is the i-th export row that passes the cut-off, rewritten: the kept rows, all of them, in export order |
| TransactionPreparation.PreparedNonInvest | src/move2gnucash/data_preparation.py:239-243 | on success, one resolved row per input row, in order |
| TransactionPreparation.PreparedInvest | src/move2gnucash/data_preparation.py:246-248 | on success, one resolved row per input row, in order |
| TransactionPreparation.PreparedTransactions | src/move2gnucash/data_preparation.py:251-292 | `prepared_transactions`; stated by `PreparedParts`, `PreparedTransactionsPartition`, `PreparedTransactionsRewrite`, `InvestmentRowsBypassCutoff`, `NoBookTransactionFails`, `MissingAccountFails` and `PreparedTransactionsResolve` |
| TransactionPreparation.PreparedParts | src/move2gnucash/data_preparation.py:285-292 | the frames hold the kept non-investment rows, then the investment rows, in order |
| TransactionPreparation.PreparedTransactionsPartition | src/move2gnucash/data_preparation.py:285-292 | the two frames split the kept rows: sizes add up, investment rows lie under "Investments:" and no other row does |
| TransactionPreparation.PreparedTransactionsRewrite | src/move2gnucash/data_preparation.py:264-283 | every output row is a rewritten export row dated after the balance date or under "Investments:" |
| TransactionPreparation.InvestmentRowsBypassCutoff | src/move2gnucash/data_preparation.py:266-270 | an investment row is kept whatever its date, keeps its account and goes to the investment frame |
| TransactionPreparation.NoBookTransactionFails | src/move2gnucash/data_preparation.py:266 | a book without transactions fails with IndexError |
| TransactionPreparation.MissingAccountFails | src/move2gnucash/data_preparation.py:285-287 | the first kept non-investment row without a candidate account fails with its missing-account error |
| TransactionPreparation.PreparedTransactionsResolve | src/move2gnucash/data_preparation.py:239-248 | every resolved account is a non-placeholder book account that the row's own name resolves to |
| TransactionMaps.CombinedMemoTags | src/move2gnucash/transaction_maps.py:37-38 | starts with the memo, ends with the tags, empty only when both are; an empty side leaves the other unchanged, and two non-empty sides have exactly "; " between them |
| TransactionMaps.SplitsSumConcat | src/move2gnucash/transaction_maps.py:72 | the sum of concatenated splits is the sum of the sums |
| TransactionMaps.SplitPair | src/move2gnucash/transaction_maps.py:41-53 | two legs: from-account +amount, to-account -amount, both with the combined memo; they sum to zero |
| TransactionMaps.TransactionOf | src/move2gnucash/transaction_maps.py:56-67 | currency USD, entered at the clock's time, with the given splits |
| TransactionMaps.SingleSplitTran | src/move2gnucash/transaction_maps.py:82-90 | the row's split pair, balanced; posted on the parsed row date, with the row's description, memo as notes and FITID as number |
| TransactionMaps.GroupSplits | src/move2gnucash/transaction_maps.py:71-72 | 2N legs, the pair of row i at positions 2i and 2i+1, summing to zero |
| TransactionMaps.MultiSplitsTran | src/move2gnucash/transaction_maps.py:70-79 | the group's 2N balanced legs, under the header of the group's first row |
| TransactionMaps.GroupKeys | src/move2gnucash/transaction_maps.py:104 | distinct keys, every row's key among them |
| TransactionMaps.GroupKeyOccurs | src/move2gnucash/transaction_maps.py:104 | every key is some row's key |
| TransactionMaps.GroupOf | src/move2gnucash/transaction_maps.py:104 | exactly the rows with the key; non-empty exactly when some row has it |
| TransactionMaps.GroupKeysFirstSeen | src/move2gnucash/transaction_maps.py:104 | keys are ordered by first appearance (`sort=False`) |
| TransactionMaps.GroupSizesOfOneMoreRow | src/move2gnucash/transaction_maps.py:104 | a new row adds one to its own group only |
| TransactionMaps.NewKeyGroup | src/move2gnucash/transaction_maps.py:104 | a row with an unseen key forms a group of its own |
| TransactionMaps.GroupsPartitionRows | src/move2gnucash/transaction_maps.py:99-104 | the group sizes add up to the number of split rows: no row lost or counted twice |
| TransactionMaps.MultiSplitTransactions | src/move2gnucash/transaction_maps.py:102-110 | one transaction per group, in key order, built from that non-empty group |
| TransactionMaps.SingleSplitTransactions | src/move2gnucash/transaction_maps.py:111-115 | one transaction per other row, in order |
| TransactionMaps.MappedTransactions | src/move2gnucash/transaction_maps.py:93-126 | `mapped_transactions`: the split groups' transactions, then the single rows'; stated by `MappedSingleRows`, `MappedTransactionsBalance` and `MappedTransactionsCoverRows` |
| TransactionMaps.MappedSingleRows | src/move2gnucash/transaction_maps.py:93-116 | without split rows the output is one transaction per row, in order |
| TransactionMaps.MappedTransactionsBalance | src/move2gnucash/transaction_maps.py:93-126 | groups plus single rows transactions; each one sums to zero, is USD and entered at the clock's time |
| TransactionMaps.MappedTransactionsCoverRows | src/move2gnucash/transaction_maps.py:93-116 | every row lands in exactly one transaction: group transactions have 2 legs per row, single ones 2 legs |
| AccountMaps.PlaceholderColumn | src/move2gnucash/account_maps.py:76 | a placeholder exactly when the balance is missing |
| AccountMaps.CommodityColumn | src/move2gnucash/account_maps.py:77 | every account in USD |
| AccountMaps.AccountOf | src/move2gnucash/account_maps.py:41-49 | the six fields copied unchanged |
| AccountMaps.OpeningBalancesAccountName | src/move2gnucash/account_maps.py:75-97 | the synthetic child is named "Opening Balances", under "Equity", rebuilding "Equity:Opening Balances" |
| AccountMaps.AccountsOf | src/move2gnucash/account_maps.py:72-97 | the accounts list of `accounts_and_balances`; stated by `AccountsOfRows` |
| AccountMaps.AccountsFromColumns | src/move2gnucash/account_maps.py:80-97 | account i carries row i's name, type, parent, commodity, placeholder flag and description; then Equity and Opening Balances: n+2 accounts |
| AccountMaps.AccountsOfRows | src/move2gnucash/account_maps.py:76-97 | each row's account keeps type and description, USD, placeholder iff no balance, parent and name rebuild the path; then the two equity accounts |
| AccountMaps.BalanceTranRows | src/move2gnucash/account_maps.py:52-69 | row i is the i-th account with a balance: from that account, to "Equity:Opening Balances", its balance as the amount, its balance date, "Opening Balance", the migration memo, no split, tags or FITID |
| AccountMaps.BalanceTranRow | src/move2gnucash/account_maps.py:52-69 | one row's opening-balance transaction row; its contents are stated by `BalanceTranRows` and `OpeningTransactionOf` |
| AccountMaps.OpeningTransactions | src/move2gnucash/account_maps.py:99-104 | `mapped_transactions` of the rows with a balance; stated by `OpeningTransactionsFacts`, `OpeningTransactionBalances` and `SimpleOpeningTransactions` |
| AccountMaps.OpeningTransactionOf | src/move2gnucash/account_maps.py:52-69 | a balance row maps to the opening transaction: +balance into the account, -balance from Equity:Opening Balances, "Opening Balance", migration memo, no number |
| AccountMaps.OpeningTransactionsFacts | src/move2gnucash/account_maps.py:99-104 | one opening transaction per account with a balance, in order, none for placeholders |
| AccountMaps.OpeningTransactionBalances | src/move2gnucash/account_maps.py:99-104 | every opening transaction sums to zero |
| AccountMaps.AccountsFrame.AccountsAndBalances | src/move2gnucash/account_maps.py:72-109 | writes placeholder, commodity, parent and name columns in place, leaves the supplied columns alone, returns the specified accounts and opening transactions |
| AccountMaps.SimpleOpeningTransactions | tests/conftest.py:122-144 | the three-account example yields the single expected opening transaction |

## Left out

- CSV reading and writing, piecash book creation and insertion, the command line, and the orchestration in `migrations.py` are I/O or calls into a library that is not part of this model.
- The field-mapping configuration file: column renaming is replaced by the model's own field names.
- `reset_index` and index columns: frames are plain sequences, so there is no index.
- `print` calls and the prompt text of `_manual_choice`: the model has only the lines read.
- Floats and `Decimal`: amounts are integers. Float rounding and NaN arithmetic are not modelled.
- `strptime` and date formats: dates are parsed by the injected `parse`. A malformed date, which raises ValueError in the source, is not modelled.
- `get_now`: one injected timestamp `now` serves every transaction, whereas the source reads the clock once per transaction.
- NaN handling beyond missing roots, account cells and balances, and `fillna("")` on transaction rows: the other string cells are always present strings.
- Classifier.ChosenType: requires at least one candidate. The source raises IndexError on an empty list, and `Classify` models that case.
- Classifier.ChosenType: the "OTHER" test of `chosen_type` is dead, because candidates are type names and no type is named OTHER, so it is left out.
- Classifier.ChosenType: the numpy-bool `placeholder is True` test is read as a boolean.
- Resolution.ChosenAcct: requires at least one candidate. `_list_of_candidates` has already raised on an empty list, so `_chosen_acct`'s empty-list branch is unreachable.
- Chart.ChartOfFails: built on the corrected `AccountPaths.ParentColumn` and `AccountPaths.NameColumn`, so it does not state the KeyError that `_parent_of` raises at `data_preparation.py:147` when no prepared path holds ':' (a chart of root-only rows, or an empty chart). The as-written failure is exhibited by `AccountPaths.TopLevelColumnFails` and `AccountPaths.ColumnsAsWrittenAgree`.
- Chart.PreparedBalancesOutcome: its failure set lacks that same KeyError, for the same reason.
- Chart.PreparedBalances, Chart.PreparedCategoryAccounts, Chart.PreparedBalancesOf, Chart.PreparedCategoryAccountsOf and Chart.ChartOf return a chart where the source raises KeyError on a chart whose paths hold no ':', because they use the corrected columns (`data_preparation.py:147-148` and `177-178`).
- AccountMaps.AccountsFrame.AccountsAndBalances, AccountMaps.AccountsOf and AccountMaps.AccountsOfRows do the same for `parent_of`/`name_of` (`account_maps.py:27-38`, called at lines 78-79), which raise KeyError when no account path holds ':'.
- Strings.Upper: maps only the ASCII letters a to z. Python's `str.upper` also maps other Unicode letters, such as 'ı' to 'I' and 'ß' to "SS", which can change the length. The `re.IGNORECASE` of the `findall` also folds characters such as the Kelvin sign to 'K'. A path that only Unicode case mapping makes match a keyword is classified by the source but not by the model.
- The bodies of `combined_strings_by`, `custom_join` and `full_string_right_match` are not part of this model. They are specified from their unit tests and from how the preparation uses them.
- The three-account example's account list (`tests/conftest.py:102-118`): its parent and name columns on literal paths are too expensive for the verifier. The same facts hold for all inputs through `AccountMaps.AccountsOfRows`.

## Findings

| source | as written | input that shows it | evidently intended | confidence | as-written member | corrected member |
|---|---|---|---|---|---|---|
| src/move2gnucash/data_preparation.py:17-28 | `rsplit(":", n=1, expand=True)` has no second column when no path holds a ':', so `result[1]` raises KeyError (also `parent_of`/`name_of` at src/move2gnucash/account_maps.py:27-38); the chart pipelines and `accounts_and_balances` are modelled on the corrected columns | a chart whose only account is "Assets" | parent "root" and name "Assets" | not executed | AccountPaths.TopLevelColumnFails | AccountPaths.ParentColumn |
| src/move2gnucash/data_preparation.py:42-47 | absent levels are marked with the text "Skip" and every "Skip" is erased after the fill, so a level really named "Skip" disappears | a report row "Skip" | the sub-path ":Skip" | not executed | AccountNames.SkipLevelErased | AccountNames.SubPathsFromRawRefs |
