/**
 * Colon-delimited account paths: `_parent_of` and `_name_of` of
 * data_preparation.py (repeated verbatim as `parent_of` and `name_of` in
 * account_maps.py). Both are `rsplit(":", n=1)` on a pandas column; the
 * per-path meaning is `ParentOf`/`NameOf`, the column forms are below.
 */
module AccountPaths {
  import opened Wrappers
  import opened Strings

  /** The index of the last ':' in `path`, or -1 when there is none. */
  function LastColon(path: string): (r: int)
    ensures -1 <= r < |path|
    ensures r == -1 <==> ':' !in path
    ensures r >= 0 ==> path[r] == ':' && ':' !in path[r + 1..]
  {
    if |path| == 0 then -1
    else if path[|path| - 1] == ':' then |path| - 1
    else
      var r := LastColon(path[..|path| - 1]);
      assert r >= 0 ==> path[r + 1..] == path[..|path| - 1][r + 1..] + [path[|path| - 1]];
      r
  }

  /** The last ':'-segment of `path`, or the whole path when it has no ':'. */
  function NameOf(path: string): (name: string)
    ensures ':' !in name
    ensures EndsWith(path, name)
    ensures ':' !in path ==> name == path
  {
    var i := LastColon(path);
    if i < 0 then path else path[i + 1..]
  }

  /** Everything before the last ':' of `path`, or the sentinel "root" when it has no ':'. */
  function ParentOf(path: string): (parent: string)
    ensures ':' !in path ==> parent == "root"
    ensures ':' in path ==> parent + ":" + NameOf(path) == path
  {
    var i := LastColon(path);
    if i < 0 then "root"
    else
      assert path == path[..i] + ":" + path[i + 1..];
      path[..i]
  }

  /** The last ':' of `parent:name` is the one just added when `name` holds none. */
  lemma {:induction false} LastColonOfChild(parent: string, name: string)
    requires ':' !in name
    ensures LastColon(parent + ":" + name) == |parent|
    decreases |name|
  {
    var path := parent + ":" + name;
    if |name| > 0 {
      assert path[|path| - 1] == name[|name| - 1];
      assert path[..|path| - 1] == parent + ":" + name[..|name| - 1];
      LastColonOfChild(parent, name[..|name| - 1]);
    }
  }

  /** Appending a colon-free name to a path is undone by `ParentOf` and `NameOf`. */
  lemma ChildPath(parent: string, name: string)
    requires ':' !in name
    ensures ParentOf(parent + ":" + name) == parent
    ensures NameOf(parent + ":" + name) == name
  {
    LastColonOfChild(parent, name);
    var path := parent + ":" + name;
    assert path[..|parent|] == parent;
    assert path[|parent| + 1..] == name;
  }

  /** A path written out as a parent, a ':' and a colon-free name splits back into those two. */
  lemma PathParts(path: string, parent: string, name: string)
    requires path == parent + ":" + name && ':' !in name
    ensures ParentOf(path) == parent && NameOf(path) == name
  {
    ChildPath(parent, name);
  }

  /**
   * `rsplit(":", n=1)` agrees with a full `split(":")`: the name is the last
   * segment, and the parent of a path with a ':' is the other segments re-joined.
   */
  lemma RsplitIsLastSegment(path: string)
    ensures var segs := Split(path, ":"); NameOf(path) == segs[|segs| - 1]
    ensures ':' in path ==> var segs := Split(path, ":"); ParentOf(path) == Join(segs[..|segs| - 1], ":")
  {
    var segs := Split(path, ":");
    var name := NameOf(path);
    if ':' in path {
      var parent := ParentOf(path);
      SplitOfChild(parent, name);
      assert segs[..|segs| - 1] == Split(parent, ":");
      JoinSplit(parent, ":");
    } else {
      SplitWithoutColon(path);
    }
  }

  /** A path without ':' is a single segment. */
  lemma SplitWithoutColon(path: string)
    requires ':' !in path
    ensures Split(path, ":") == [path]
  {
    assert ":" == [':'];
    IndexOfChar(path, ':');
  }

  /** Appending ":" and a colon-free name adds that name as one more segment. */
  lemma SplitOfChild(parent: string, name: string)
    requires ':' !in name
    ensures Split(parent + ":" + name, ":") == Split(parent, ":") + [name]
  {
    assert ":" == [':'];
    SplitWithoutColon(name);
    SplitCharConcat(parent, name, ':');
  }

  /**
   * `_parent_of` on a whole column AS WRITTEN: `rsplit(..., expand=True)`
   * yields no second column when no path holds a ':', and `result[1]` then
   * raises KeyError (`None` here).
   */
  function ParentColumnAsWritten(col: seq<string>): Option<seq<string>>
  {
    if forall i | 0 <= i < |col| :: ':' !in col[i] then None
    else Some(seq(|col|, i requires 0 <= i < |col| => ParentOf(col[i])))
  }

  /** `_name_of` on a whole column AS WRITTEN, with the same KeyError. */
  function NameColumnAsWritten(col: seq<string>): Option<seq<string>>
  {
    if forall i | 0 <= i < |col| :: ':' !in col[i] then None
    else Some(seq(|col|, i requires 0 <= i < |col| => NameOf(col[i])))
  }

  /** The column of parents, one per path, as the function evidently intends. */
  function ParentColumn(col: seq<string>): (r: seq<string>)
    ensures |r| == |col|
    ensures forall i | 0 <= i < |col| && ':' !in col[i] :: r[i] == "root"
    ensures forall i | 0 <= i < |col| && ':' in col[i] :: r[i] + ":" + NameOf(col[i]) == col[i]
  {
    seq(|col|, i requires 0 <= i < |col| => ParentOf(col[i]))
  }

  /** The column of short names, one per path, as the function evidently intends. */
  function NameColumn(col: seq<string>): (r: seq<string>)
    ensures |r| == |col|
    ensures forall i | 0 <= i < |col| :: ':' !in r[i] && EndsWith(col[i], r[i])
    ensures forall i | 0 <= i < |col| && ':' !in col[i] :: r[i] == col[i]
  {
    seq(|col|, i requires 0 <= i < |col| => NameOf(col[i]))
  }

  /** As written and corrected agree exactly when some path in the column holds a ':'. */
  lemma ColumnsAsWrittenAgree(col: seq<string>)
    ensures (exists i | 0 <= i < |col| :: ':' in col[i]) <==> ParentColumnAsWritten(col) == Some(ParentColumn(col))
    ensures (exists i | 0 <= i < |col| :: ':' in col[i]) <==> NameColumnAsWritten(col) == Some(NameColumn(col))
  {
  }

  /** A column of top-level accounts only: the code as written fails where "root" is intended. */
  lemma TopLevelColumnFails()
    ensures ParentColumnAsWritten(["Assets"]) == None
    ensures NameColumnAsWritten(["Assets"]) == None
    ensures ParentColumn(["Assets"]) == ["root"]
    ensures NameColumn(["Assets"]) == ["Assets"]
  {
    assert ':' !in "Assets";
  }
}
