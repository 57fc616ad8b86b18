/**
 * Rebuilding full account paths from Quicken's indented report rows
 * (`_sub_paths_from_raw_refs`, `_total_lines_removed` and
 * `_prepared_account_names` of data_preparation.py).
 *
 * A report row names its account by " - "-separated levels below the root
 * shown in the row's `root` cell. An empty level repeats the level of the row
 * above at the same depth; the levels that a row lacks are dropped. The root
 * cell itself is filled downwards the same way, in the caller's frame.
 */
module AccountNames {
  import opened Wrappers
  import opened Strings
  import Seqs
  import Frames

  /**
   * The " - "-separated levels of one report row. A missing account cell (the
   * NaN of a root-only header row) has no levels at all: `str.split` leaves it
   * NaN in every column of the expanded frame.
   */
  function Levels(account: Option<string>): seq<string>
  {
    if account.None? then [] else Split(account.value, " - ")
  }

  /** The number of levels of every row. */
  function LevelCounts(accounts: seq<Option<string>>): (counts: seq<nat>)
    ensures |counts| == |accounts|
  {
    seq(|accounts|, r requires 0 <= r < |accounts| => |Levels(accounts[r])|)
  }

  /** The number of level columns of `str.split(" - ", expand=True)`: the most levels of any row. */
  function Width(accounts: seq<Option<string>>): (w: nat)
    ensures forall r | 0 <= r < |accounts| :: |Levels(accounts[r])| <= w
    ensures accounts == [] ==> w == 0
  {
    var counts := LevelCounts(accounts);
    assert forall r | 0 <= r < |accounts| :: counts[r] == |Levels(accounts[r])|;
    Seqs.Max(counts)
  }

  /** The width is attained: some row of a non-empty report has exactly that many levels. */
  lemma WidthAttained(accounts: seq<Option<string>>) returns (r: nat)
    requires accounts != []
    ensures r < |accounts| && |Levels(accounts[r])| == Width(accounts)
  {
    var counts := LevelCounts(accounts);
    r := Seqs.MaxAttained(counts);
    assert counts[r] == |Levels(accounts[r])|;
  }

  /**
   * A cell of the expanded level table: the row is too short to have this
   * level (`Absent`), or it has a level with a name. A missing cell (`None`
   * around it) is an empty level, to be filled from the row above.
   */
  datatype Cell = Absent | Level(name: string)

  /** The cell at depth `d` of one row, before the fill. */
  function RawCell(account: Option<string>, d: nat): Option<Cell>
  {
    var levels := Levels(account);
    if d >= |levels| then Some(Absent)
    else if levels[d] == "" then None
    else Some(Level(levels[d]))
  }

  /** The column of depth `d`, before the fill. */
  function LevelColumn(accounts: seq<Option<string>>, d: nat): (col: seq<Option<Cell>>)
    ensures |col| == |accounts|
  {
    seq(|accounts|, r requires 0 <= r < |accounts| => RawCell(accounts[r], d))
  }

  /** The text a filled cell contributes: its name, or nothing. */
  function CellText(c: Option<Cell>): string
  {
    if c.Some? && c.value.Level? then c.value.name else ""
  }

  /** The level at depth `d` of row `r` after the fill. */
  function FilledLevel(accounts: seq<Option<string>>, r: nat, d: nat): string
    requires r < |accounts|
  {
    CellText(Frames.FilledAt(LevelColumn(accounts, d), r))
  }

  /** All levels of row `r` after the fill. */
  function FilledLevels(accounts: seq<Option<string>>, r: nat): (levels: seq<string>)
    requires r < |accounts|
    ensures |levels| == Width(accounts)
  {
    seq(Width(accounts), d requires 0 <= d < Width(accounts) => FilledLevel(accounts, r, d))
  }

  /** The sub-path of every row: its filled levels, custom-joined. */
  function SubPaths(accounts: seq<Option<string>>): (paths: seq<string>)
    ensures |paths| == |accounts|
  {
    seq(|accounts|, r requires 0 <= r < |accounts| => CustomJoin(FilledLevels(accounts, r)))
  }

  /**
   * The fill rule level by level: a level the row lacks is empty, a named
   * level stays, and an empty level repeats the filled level of the row above
   * (nothing in the first row).
   */
  lemma FilledLevelRule(accounts: seq<Option<string>>, r: nat, d: nat)
    requires r < |accounts|
    ensures d >= |Levels(accounts[r])| ==> FilledLevel(accounts, r, d) == ""
    ensures d < |Levels(accounts[r])| && Levels(accounts[r])[d] != "" ==>
      FilledLevel(accounts, r, d) == Levels(accounts[r])[d]
    ensures d < |Levels(accounts[r])| && Levels(accounts[r])[d] == "" ==>
      FilledLevel(accounts, r, d) == if r == 0 then "" else FilledLevel(accounts, r - 1, d)
  {
  }

  /**
   * A non-empty inherited level is the level at that depth of the nearest row
   * above that names one; every row from there down leaves it empty.
   */
  lemma InheritedLevel(accounts: seq<Option<string>>, r: nat, d: nat)
    requires r < |accounts| && d < |Levels(accounts[r])| && Levels(accounts[r])[d] == ""
    requires FilledLevel(accounts, r, d) != ""
    ensures exists j | 0 <= j < r ::
      && d < |Levels(accounts[j])| && Levels(accounts[j])[d] == FilledLevel(accounts, r, d)
      && forall k | j < k <= r :: d < |Levels(accounts[k])| && Levels(accounts[k])[d] == ""
  {
    CellOfColumn(accounts, r, d);
    var j := NearestNamedCell(accounts, r, d);
    CellOfColumn(accounts, j, d);
    EmptyRun(accounts, j, r, d);
  }

  /** The cell a filled level comes from: the nearest named one at or above row `r`. */
  lemma NearestNamedCell(accounts: seq<Option<string>>, r: nat, d: nat) returns (j: nat)
    requires r < |accounts| && FilledLevel(accounts, r, d) != ""
    ensures j <= r && LevelColumn(accounts, d)[j] == Some(Level(FilledLevel(accounts, r, d)))
    ensures forall k | j < k <= r :: LevelColumn(accounts, d)[k].None?
  {
    var col := LevelColumn(accounts, d);
    Frames.FilledAtNearest(col, r);
    j :| 0 <= j <= r && col[j] == Frames.FilledAt(col, r) && forall k | j < k <= r :: col[k].None?;
  }

  /** Rows whose cells at depth `d` are all missing leave that level empty. */
  lemma EmptyRun(accounts: seq<Option<string>>, j: nat, r: nat, d: nat)
    requires r < |accounts|
    requires forall k | j < k <= r :: LevelColumn(accounts, d)[k].None?
    ensures forall k | j < k <= r :: d < |Levels(accounts[k])| && Levels(accounts[k])[d] == ""
  {
    forall k | j < k <= r
      ensures d < |Levels(accounts[k])| && Levels(accounts[k])[d] == ""
    {
      CellOfColumn(accounts, k, d);
    }
  }

  /** What a cell of a level column says about its row's levels. */
  lemma CellOfColumn(accounts: seq<Option<string>>, k: nat, d: nat)
    requires k < |accounts|
    ensures LevelColumn(accounts, d)[k].None? <==> d < |Levels(accounts[k])| && Levels(accounts[k])[d] == ""
    ensures LevelColumn(accounts, d)[k].Some? && LevelColumn(accounts, d)[k].value.Level? ==>
      d < |Levels(accounts[k])| && Levels(accounts[k])[d] == LevelColumn(accounts, d)[k].value.name
  {
    assert LevelColumn(accounts, d)[k] == RawCell(accounts[k], d);
  }

  /** `custom_join` of levels that are all empty contributes nothing. */
  lemma {:induction false} CustomJoinOfEmpties(levels: seq<string>)
    requires forall d | 0 <= d < |levels| :: levels[d] == ""
    ensures CustomJoin(levels) == ""
  {
    if levels != [] {
      CustomJoinOfEmpties(levels[1..]);
    }
  }

  /** A row that names every one of its levels keeps them, followed by empty levels up to the width. */
  lemma CompleteRowFilled(accounts: seq<Option<string>>, r: nat)
    requires r < |accounts|
    requires forall d | 0 <= d < |Levels(accounts[r])| :: Levels(accounts[r])[d] != ""
    ensures |Levels(accounts[r])| <= |FilledLevels(accounts, r)|
    ensures FilledLevels(accounts, r) == Levels(accounts[r]) + FilledLevels(accounts, r)[|Levels(accounts[r])|..]
    ensures forall d | |Levels(accounts[r])| <= d < |FilledLevels(accounts, r)| :: FilledLevels(accounts, r)[d] == ""
  {
    var own := Levels(accounts[r]);
    var filled := FilledLevels(accounts, r);
    forall d | 0 <= d < |own| ensures filled[d] == own[d] {
      FilledLevelRule(accounts, r, d);
    }
    forall d | |own| <= d < |filled| ensures filled[d] == "" {
      FilledLevelRule(accounts, r, d);
    }
    assert filled == own + filled[|own|..];
  }

  /**
   * A row that names every one of its levels gets the sub-path ":" followed
   * by its levels joined by ":".
   */
  lemma SubPathOfCompleteRow(accounts: seq<Option<string>>, r: nat)
    requires r < |accounts| && accounts[r].Some?
    requires forall d | 0 <= d < |Levels(accounts[r])| :: Levels(accounts[r])[d] != ""
    ensures SubPaths(accounts)[r] == ":" + Join(Levels(accounts[r]), ":")
  {
    var own := Levels(accounts[r]);
    var filled := FilledLevels(accounts, r);
    var tail := filled[|own|..];
    CompleteRowFilled(accounts, r);
    var keep := (l: string) => l != "";
    Seqs.FilterConcat(own, tail, keep);
    Seqs.FilterAll(own, keep);
    Seqs.FilterNone(tail, keep);
    assert NonEmpty(filled) == own;
    CustomJoinIsColonJoin(filled);
  }

  /**
   * A row whose account cell is missing (a root-only header row) has no level
   * at any depth, inherits nothing from the row above, and gets the empty
   * sub-path, in the code as written as in the corrected one.
   */
  lemma MissingAccountCell(accounts: seq<Option<string>>, r: nat)
    requires r < |accounts| && accounts[r].None?
    ensures SubPaths(accounts)[r] == ""
    ensures SubPathsAsWritten(accounts)[r] == ""
  {
    var filled := FilledLevels(accounts, r);
    forall d | 0 <= d < |filled| ensures filled[d] == "" {
      FilledLevelRule(accounts, r, d);
    }
    CustomJoinOfEmpties(filled);
    var written := FilledLevelsAsWritten(accounts, r);
    forall d | 0 <= d < |written| ensures written[d] == "" {
      assert LevelColumnAsWritten(accounts, d)[r] == Some("Skip");
    }
    CustomJoinOfEmpties(written);
  }

  /** Row `r` read across the filled level columns. */
  function RowOfColumns(columns: seq<seq<Option<Cell>>>, r: nat): (levels: seq<string>)
    requires forall d | 0 <= d < |columns| :: r < |columns[d]|
    ensures |levels| == |columns|
  {
    seq(|columns|, d requires 0 <= d < |columns| => CellText(columns[d][r]))
  }

  /** Reading a row across the forward-filled level columns gives that row's filled levels. */
  lemma RowOfFilledColumns(accounts: seq<Option<string>>, columns: seq<seq<Option<Cell>>>, r: nat)
    requires r < |accounts| && |columns| == Width(accounts)
    requires forall d | 0 <= d < |columns| :: columns[d] == Frames.ForwardFilled(LevelColumn(accounts, d))
    ensures forall d | 0 <= d < |columns| :: r < |columns[d]|
    ensures RowOfColumns(columns, r) == FilledLevels(accounts, r)
    ensures CustomJoin(RowOfColumns(columns, r)) == SubPaths(accounts)[r]
  {
    var levels := RowOfColumns(columns, r);
    forall d | 0 <= d < |columns| ensures levels[d] == FilledLevel(accounts, r, d) {
      assert columns[d][r] == Frames.FilledAt(LevelColumn(accounts, d), r);
    }
  }

  /** One column of the expanded frame, built as an array and filled downwards in place. */
  method FilledLevelColumn(accounts: seq<Option<string>>, d: nat) returns (filled: seq<Option<Cell>>)
    ensures filled == Frames.ForwardFilled(LevelColumn(accounts, d))
  {
    var column := new Option<Cell>[|accounts|](r requires 0 <= r < |accounts| => RawCell(accounts[r], d));
    assert column[..] == LevelColumn(accounts, d);
    Frames.ForwardFill(column);
    filled := column[..];
  }

  /**
   * `_sub_paths_from_raw_refs`: one column per depth, filled downwards in
   * place, then every row's levels custom-joined.
   */
  method SubPathsFromRawRefs(accounts: seq<Option<string>>) returns (completed: seq<string>)
    ensures completed == SubPaths(accounts)
  {
    var width := Width(accounts);
    var filled: seq<seq<Option<Cell>>> := [];
    for d := 0 to width
      invariant |filled| == d
      invariant forall e | 0 <= e < d :: filled[e] == Frames.ForwardFilled(LevelColumn(accounts, e))
    {
      var column := FilledLevelColumn(accounts, d);
      filled := filled + [column];
    }
    ghost var paths := SubPaths(accounts);
    completed := [];
    for r := 0 to |accounts|
      invariant |completed| == r
      invariant forall k | 0 <= k < r :: completed[k] == paths[k]
    {
      RowOfFilledColumns(accounts, filled, r);
      completed := completed + [CustomJoin(RowOfColumns(filled, r))];
    }
  }

  /*
   * The code as written marks a level a row lacks with the text "Skip"
   * before the fill and erases every "Skip" after it, so a level that is
   * really named "Skip" is erased too.
   */

  /** The cell at depth `d` of one row as written: "Skip" for a level the row lacks. */
  function RawCellAsWritten(account: Option<string>, d: nat): Option<string>
  {
    var levels := Levels(account);
    if d >= |levels| then Some("Skip")
    else if levels[d] == "" then None
    else Some(levels[d])
  }

  /** The column of depth `d` as written, before the fill. */
  function LevelColumnAsWritten(accounts: seq<Option<string>>, d: nat): (col: seq<Option<string>>)
    ensures |col| == |accounts|
  {
    seq(|accounts|, r requires 0 <= r < |accounts| => RawCellAsWritten(accounts[r], d))
  }

  /** The level at depth `d` of row `r` as written: after the fill, "Skip" is replaced by "". */
  function FilledLevelAsWritten(accounts: seq<Option<string>>, r: nat, d: nat): string
    requires r < |accounts|
  {
    var c := Frames.FilledAt(LevelColumnAsWritten(accounts, d), r);
    if c.None? || c.value == "Skip" then "" else c.value
  }

  /** All levels of row `r` as written. */
  function FilledLevelsAsWritten(accounts: seq<Option<string>>, r: nat): (levels: seq<string>)
    requires r < |accounts|
    ensures |levels| == Width(accounts)
  {
    seq(Width(accounts), d requires 0 <= d < Width(accounts) => FilledLevelAsWritten(accounts, r, d))
  }

  /** `_sub_paths_from_raw_refs` as written. */
  function SubPathsAsWritten(accounts: seq<Option<string>>): (paths: seq<string>)
    ensures |paths| == |accounts|
  {
    seq(|accounts|, r requires 0 <= r < |accounts| => CustomJoin(FilledLevelsAsWritten(accounts, r)))
  }

  /** The text the code as written puts in a cell before the fill. */
  function SkipMarked(c: Cell): string
  {
    if c.Absent? then "Skip" else c.name
  }

  /** Where no level is named "Skip", the code as written and the corrected one agree. */
  lemma SubPathsAgreeWithoutSkipLevel(accounts: seq<Option<string>>)
    requires forall r, d | 0 <= r < |accounts| && 0 <= d < |Levels(accounts[r])| :: Levels(accounts[r])[d] != "Skip"
    ensures SubPathsAsWritten(accounts) == SubPaths(accounts)
  {
    forall r, d | 0 <= r < |accounts| && 0 <= d
      ensures FilledLevelAsWritten(accounts, r, d) == FilledLevel(accounts, r, d)
    {
      FilledLevelAgrees(accounts, r, d);
    }
    forall r | 0 <= r < |accounts|
      ensures SubPathsAsWritten(accounts)[r] == SubPaths(accounts)[r]
    {
      assert FilledLevelsAsWritten(accounts, r) == FilledLevels(accounts, r);
    }
  }

  /** One cell of `SubPathsAgreeWithoutSkipLevel`. */
  lemma FilledLevelAgrees(accounts: seq<Option<string>>, r: nat, d: nat)
    requires r < |accounts|
    requires forall k, e | 0 <= k < |accounts| && 0 <= e < |Levels(accounts[k])| :: Levels(accounts[k])[e] != "Skip"
    ensures FilledLevelAsWritten(accounts, r, d) == FilledLevel(accounts, r, d)
  {
    var col := LevelColumn(accounts, d);
    LevelColumnAsWrittenIsMarked(accounts, d);
    Frames.FilledAtMapPresent(col, SkipMarked, r);
    var c := Frames.FilledAt(col, r);
    if c.Some? && c.value.Level? {
      FilledNameIsALevel(accounts, r, d);
      assert SkipMarked(c.value) == c.value.name != "Skip";
    }
  }

  /** The column as written is the column of cells with "Skip" for the absent ones. */
  lemma LevelColumnAsWrittenIsMarked(accounts: seq<Option<string>>, d: nat)
    ensures LevelColumnAsWritten(accounts, d) == Frames.MapPresent(LevelColumn(accounts, d), SkipMarked)
  {
    var col := LevelColumn(accounts, d);
    var marked := Frames.MapPresent(col, SkipMarked);
    forall r | 0 <= r < |accounts| ensures LevelColumnAsWritten(accounts, d)[r] == marked[r] {
      var cell := RawCell(accounts[r], d);
      assert col[r] == cell;
      assert marked[r] == if cell.None? then None else Some(SkipMarked(cell.value));
      assert LevelColumnAsWritten(accounts, d)[r] == RawCellAsWritten(accounts[r], d);
    }
  }

  /** A filled level that names something names a level of some row at that depth. */
  lemma FilledNameIsALevel(accounts: seq<Option<string>>, r: nat, d: nat)
    requires r < |accounts|
    requires Frames.FilledAt(LevelColumn(accounts, d), r).Some? && Frames.FilledAt(LevelColumn(accounts, d), r).value.Level?
    ensures exists j | 0 <= j < |accounts| ::
      d < |Levels(accounts[j])| && Levels(accounts[j])[d] == Frames.FilledAt(LevelColumn(accounts, d), r).value.name
  {
    var col := LevelColumn(accounts, d);
    Frames.FilledAtNearest(col, r);
    var j :| 0 <= j <= r && col[j] == Frames.FilledAt(col, r) && forall k | j < k <= r :: col[k].None?;
    assert col[j] == RawCell(accounts[j], d);
  }

  /** A row whose only level is named "Skip": as written it is erased, where ":Skip" is intended. */
  lemma SkipLevelErased()
    ensures SubPathsAsWritten([Some("Skip")]) == [""]
    ensures SubPaths([Some("Skip")]) == [":Skip"]
  {
    var accounts := [Some("Skip")];
    SplitWithoutSeparator("Skip", " - ");
    assert Levels(accounts[0]) == ["Skip"];
    assert Width(accounts) == 1;
    assert FilledLevelAsWritten(accounts, 0, 0) == "";
    assert FilledLevel(accounts, 0, 0) == "Skip";
    assert FilledLevelsAsWritten(accounts, 0) == [""];
    assert CustomJoin([""]) == "";
    assert SubPathsAsWritten(accounts)[0] == "";
    assert FilledLevels(accounts, 0) == ["Skip"];
    assert CustomJoin(["Skip"]) == ":Skip";
  }

  /** One row of the prepared names: the full path and the report's balance, if any. */
  datatype NamedRow = NamedRow(pathAndName: string, balance: Option<int>)

  /** A subtotal row of the report: its path holds ":Total". */
  predicate IsTotalLine(row: NamedRow)
  {
    Contains(row.pathAndName, ":Total")
  }

  /** The mask `~str.contains(":Total")`. */
  predicate KeepRow(row: NamedRow)
  {
    !IsTotalLine(row)
  }

  /** `_total_lines_removed`: the rows that are not subtotals, in their order. */
  function TotalLinesRemoved(rows: seq<NamedRow>): (kept: seq<NamedRow>)
    ensures |kept| <= |rows|
    ensures forall i | 0 <= i < |kept| :: kept[i] in rows && !IsTotalLine(kept[i])
    ensures forall i | 0 <= i < |rows| && !IsTotalLine(rows[i]) :: rows[i] in kept
  {
    Seqs.Filter(rows, KeepRow)
  }

  /**
   * Removing subtotals keeps the relative order: it distributes over
   * concatenation, keeps a single non-subtotal row and drops a single subtotal.
   */
  lemma TotalLinesRemovedInOrder(a: seq<NamedRow>, b: seq<NamedRow>, row: NamedRow)
    ensures TotalLinesRemoved(a + b) == TotalLinesRemoved(a) + TotalLinesRemoved(b)
    ensures TotalLinesRemoved([row]) == if IsTotalLine(row) then [] else [row]
  {
    Seqs.FilterConcat(a, b, KeepRow);
    assert [row][1..] == [];
  }

  /** The message of the TypeError raised when a row has no root after the fill. */
  const MissingRootError := "bad operand type for unary ~: 'float'"

  /**
   * `_prepared_account_names` on the columns `root`, `account` and `balance`:
   * the roots are filled downwards, every row's path is its root followed by
   * its sub-path, and subtotal rows are removed. A row left without a root
   * yields a missing path, on which the subtotal mask fails.
   */
  function PreparedAccountNames(roots: seq<Option<string>>, accounts: seq<Option<string>>, balances: seq<Option<int>>): Result<seq<NamedRow>, string>
    requires |roots| == |accounts| == |balances|
  {
    var filled := Frames.ForwardFilled(roots);
    if exists i | 0 <= i < |filled| :: filled[i].None? then Failure(MissingRootError)
    else
      var sub := SubPaths(accounts);
      Success(TotalLinesRemoved(seq(|roots|, i requires 0 <= i < |roots| => NamedRow(filled[i].value + sub[i], balances[i]))))
  }

  /** The preparation fails exactly when the report's first row has no root. */
  lemma PreparedAccountNamesFails(roots: seq<Option<string>>, accounts: seq<Option<string>>, balances: seq<Option<int>>)
    requires |roots| == |accounts| == |balances|
    ensures PreparedAccountNames(roots, accounts, balances).Failure? <==> roots != [] && roots[0].None?
  {
    var filled := Frames.ForwardFilled(roots);
    if roots != [] && roots[0].None? {
      assert filled[0].None?;
    }
    forall i | 0 <= i < |filled| && filled[i].None? ensures roots[0].None? {
      Frames.FilledAtMissing(roots, i);
    }
  }

  /**
   * A prepared row that is not a subtotal has the path made of the root of the
   * nearest row above (or its own) that names one, and its own sub-path.
   */
  lemma PreparedAccountName(roots: seq<Option<string>>, accounts: seq<Option<string>>, balances: seq<Option<int>>, i: nat)
    requires |roots| == |accounts| == |balances| && i < |roots|
    requires PreparedAccountNames(roots, accounts, balances).Success?
    ensures exists j, root | 0 <= j <= i && roots[j] == Some(root) ::
      && (forall k | j < k <= i :: roots[k].None?)
      && var row := NamedRow(root + SubPaths(accounts)[i], balances[i]);
         !IsTotalLine(row) ==> row in PreparedAccountNames(roots, accounts, balances).value
  {
    var filled := Frames.ForwardFilled(roots);
    assert filled[i].Some?;
    Frames.FilledAtNearest(roots, i);
    var j :| 0 <= j <= i && roots[j] == Frames.FilledAt(roots, i) && forall k | j < k <= i :: roots[k].None?;
    var rows := seq(|roots|, k requires 0 <= k < |roots| => NamedRow(filled[k].value + SubPaths(accounts)[k], balances[k]));
    assert rows[i] == NamedRow(filled[i].value + SubPaths(accounts)[i], balances[i]);
  }

  /**
   * A root-only header row (its account cell missing) is prepared as the bare
   * root it inherits, not as the levels of the row above.
   */
  lemma HeaderRowIsItsRoot(roots: seq<Option<string>>, accounts: seq<Option<string>>, balances: seq<Option<int>>, i: nat)
    requires |roots| == |accounts| == |balances| && i < |roots| && accounts[i].None?
    requires PreparedAccountNames(roots, accounts, balances).Success?
    ensures exists j, root | 0 <= j <= i && roots[j] == Some(root) ::
      && (forall k | j < k <= i :: roots[k].None?)
      && (!IsTotalLine(NamedRow(root, balances[i])) ==> NamedRow(root, balances[i]) in PreparedAccountNames(roots, accounts, balances).value)
  {
    MissingAccountCell(accounts, i);
    PreparedAccountName(roots, accounts, balances, i);
    var j, root :| 0 <= j <= i && roots[j] == Some(root)
      && (forall k | j < k <= i :: roots[k].None?)
      && var row := NamedRow(root + SubPaths(accounts)[i], balances[i]);
         !IsTotalLine(row) ==> row in PreparedAccountNames(roots, accounts, balances).value;
    assert root + SubPaths(accounts)[i] == root;
  }

  /**
   * `_prepared_account_names` in place: the caller's `root` column is filled
   * downwards, and the prepared names are returned.
   */
  method PrepareAccountNames(roots: array<Option<string>>, accounts: seq<Option<string>>, balances: seq<Option<int>>)
    returns (r: Result<seq<NamedRow>, string>)
    requires roots.Length == |accounts| == |balances|
    modifies roots
    ensures roots[..] == Frames.ForwardFilled(old(roots[..]))
    ensures r == PreparedAccountNames(old(roots[..]), accounts, balances)
  {
    Frames.ForwardFill(roots);
    var sub := SubPathsFromRawRefs(accounts);
    var filled := roots[..];
    if exists i | 0 <= i < |filled| :: filled[i].None? {
      return Failure(MissingRootError);
    }
    var rows := seq(|filled|, i requires 0 <= i < |filled| => NamedRow(filled[i].value + sub[i], balances[i]));
    r := Success(TotalLinesRemoved(rows));
  }
}
