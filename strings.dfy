/**
 * The string helpers of move2gnucash.utils that the preparation code imports
 * (`combined_strings_by`, `custom_join`, `full_string_right_match`), together
 * with the Python `str` operations they and their callers rely on: `split`,
 * `join`, `startswith`, substring containment and `upper`.
 */
module Strings {
  import opened Wrappers
  import Seqs

  /** Python's `s.startswith(prefix)`. */
  predicate StartsWith(s: string, prefix: string) {
    |prefix| <= |s| && s[..|prefix|] == prefix
  }

  /** Python's `s.endswith(suffix)`. */
  predicate EndsWith(s: string, suffix: string) {
    |suffix| <= |s| && s[|s| - |suffix|..] == suffix
  }

  /** `sub` occurs in `s` starting at index `i`. */
  predicate OccursAt(s: string, sub: string, i: nat) {
    i + |sub| <= |s| && s[i..i + |sub|] == sub
  }

  /** Python's `sub in s` (also pandas `str.contains` for a pattern without metacharacters). */
  predicate Contains(s: string, sub: string) {
    exists i: nat | i <= |s| :: OccursAt(s, sub, i)
  }

  /** The first index at or after `from` where `sub` occurs, if any. */
  function IndexOfFrom(s: string, sub: string, from: nat): (r: Option<nat>)
    requires from <= |s|
    decreases |s| - from
    ensures r.Some? ==> from <= r.value && OccursAt(s, sub, r.value)
    ensures r.Some? ==> forall j: nat | from <= j < r.value :: !OccursAt(s, sub, j)
    ensures r.None? ==> forall j: nat | from <= j :: !OccursAt(s, sub, j)
  {
    if from + |sub| > |s| then None
    else if s[from..from + |sub|] == sub then Some(from)
    else IndexOfFrom(s, sub, from + 1)
  }

  /** Python's `s.find(sub)`, with `None` for -1. */
  function IndexOf(s: string, sub: string): (r: Option<nat>)
    ensures r.None? <==> !Contains(s, sub)
    ensures r.Some? ==> OccursAt(s, sub, r.value) && forall j: nat | j < r.value :: !OccursAt(s, sub, j)
  {
    IndexOfFrom(s, sub, 0)
  }

  /** Before the first occurrence of a non-empty `sub`, `sub` does not occur. */
  lemma PrefixBeforeFirstOccurrence(s: string, sub: string, i: nat)
    requires |sub| > 0 && i <= |s|
    requires forall j: nat | j < i :: !OccursAt(s, sub, j)
    ensures !Contains(s[..i], sub)
  {
    forall j: nat | j <= i ensures !OccursAt(s[..i], sub, j) {
      if j + |sub| <= i {
        assert s[..i][j..j + |sub|] == s[j..j + |sub|];
        assert !OccursAt(s, sub, j);
      }
    }
  }

  /** Python's `s.split(sep)` for a non-empty separator: leftmost, non-overlapping occurrences. */
  function Split(s: string, sep: string): (r: seq<string>)
    requires |sep| > 0
    decreases |s|
    ensures |r| >= 1
    ensures forall k | 0 <= k < |r| :: !Contains(r[k], sep)
  {
    match IndexOf(s, sep)
    case None => [s]
    case Some(i) =>
      PrefixBeforeFirstOccurrence(s, sep, i);
      [s[..i]] + Split(s[i + |sep|..], sep)
  }

  /** A string that never holds the separator's first character splits into itself alone. */
  lemma SplitWithoutSeparator(s: string, sep: string)
    requires |sep| > 0 && sep[0] !in s
    ensures Split(s, sep) == [s]
  {
    forall i: nat | i <= |s| ensures !OccursAt(s, sep, i) {
      if i + |sep| <= |s| {
        assert s[i..i + |sep|][0] == s[i];
      }
    }
  }

  /** Python's `sep.join(parts)`. */
  function Join(parts: seq<string>, sep: string): string
  {
    if |parts| == 0 then ""
    else if |parts| == 1 then parts[0]
    else parts[0] + sep + Join(parts[1..], sep)
  }

  /** Joining the pieces of a split with the same separator gives back the string. */
  lemma {:induction false} JoinSplit(s: string, sep: string)
    requires |sep| > 0
    ensures Join(Split(s, sep), sep) == s
    decreases |s|
  {
    match IndexOf(s, sep)
    case None =>
    case Some(i) =>
      var rest := s[i + |sep|..];
      var tail := Split(rest, sep);
      assert Split(s, sep) == [s[..i]] + tail;
      assert ([s[..i]] + tail)[1..] == tail;
      JoinSplit(rest, sep);
      assert s == s[..i] + sep + rest;
  }

  /** Joining two non-empty lists of pieces puts one separator between them. */
  lemma {:induction false} JoinConcat(a: seq<string>, b: seq<string>, sep: string)
    requires |a| > 0 && |b| > 0
    ensures Join(a + b, sep) == Join(a, sep) + sep + Join(b, sep)
  {
    if |a| == 1 {
      assert (a + b)[1..] == b;
    } else {
      assert (a + b)[1..] == a[1..] + b;
      JoinConcat(a[1..], b, sep);
    }
  }

  /** For a one-character separator, occurrences are just positions holding that character. */
  lemma IndexOfChar(s: string, c: char)
    ensures IndexOf(s, [c]).None? <==> c !in s
    ensures IndexOf(s, [c]).Some? ==> var i := IndexOf(s, [c]).value; i < |s| && s[i] == c && c !in s[..i]
  {
    if c in s {
      var k :| 0 <= k < |s| && s[k] == c;
      assert s[k..k + 1] == [c];
      assert OccursAt(s, [c], k);
      var i := IndexOf(s, [c]).value;
      assert s[i..i + 1][0] == s[i];
      forall k | 0 <= k < i ensures s[k] != c {
        assert !OccursAt(s, [c], k);
        assert s[k..k + 1] == [s[k]];
      }
    } else {
      forall j: nat | j <= |s| ensures !OccursAt(s, [c], j) {
        if j + 1 <= |s| {
          assert s[j..j + 1][0] == s[j];
        }
      }
    }
  }

  /** The first position holding `c` is where a one-character split cuts. */
  lemma IndexOfCharAt(s: string, c: char, i: nat)
    requires i < |s| && s[i] == c && c !in s[..i]
    ensures IndexOf(s, [c]) == Some(i)
  {
    assert s[i..i + 1] == [c];
    assert OccursAt(s, [c], i);
    forall j: nat | j < i ensures !OccursAt(s, [c], j) {
      assert s[..i][j] == s[j];
      assert s[j..j + 1][0] == s[j];
    }
  }

  /** Splitting on a character distributes over a concatenation joined by that character. */
  lemma {:induction false} SplitCharConcat(x: string, y: string, c: char)
    ensures Split(x + [c] + y, [c]) == Split(x, [c]) + Split(y, [c])
    decreases |x|
  {
    var s := x + [c] + y;
    IndexOfChar(x, c);
    if c in x {
      var i := IndexOf(x, [c]).value;
      var x' := x[i + 1..];
      assert s[..i] == x[..i];
      IndexOfCharAt(s, c, i);
      assert s[i + 1..] == x' + [c] + y;
      assert Split(s, [c]) == [x[..i]] + Split(x' + [c] + y, [c]);
      assert Split(x, [c]) == [x[..i]] + Split(x', [c]);
      SplitCharConcat(x', y, c);
    } else {
      assert s[..|x|] == x;
      IndexOfCharAt(s, c, |x|);
      assert s[|x| + 1..] == y;
      assert Split(s, [c]) == [x] + Split(y, [c]);
      assert Split(x, [c]) == [x];
    }
  }

  /** Joining pieces free of a character and splitting on it again gives back the pieces. */
  lemma {:induction false} SplitJoinChar(parts: seq<string>, c: char)
    requires |parts| >= 1
    requires forall k | 0 <= k < |parts| :: c !in parts[k]
    ensures Split(Join(parts, [c]), [c]) == parts
  {
    var p := parts[0];
    IndexOfChar(p, c);
    assert Split(p, [c]) == [p];
    if |parts| > 1 {
      var tail := parts[1..];
      var rest := Join(tail, [c]);
      assert Join(parts, [c]) == p + [c] + rest;
      SplitJoinChar(tail, c);
      SplitCharConcat(p, rest, c);
      assert parts == [p] + tail;
    }
  }

  /** Python's `str.upper()` on the ASCII letters. */
  function Upper(s: string): (r: string)
    ensures |r| == |s|
    ensures forall i | 0 <= i < |s| :: !('a' <= r[i] <= 'z')
    ensures forall i | 0 <= i < |s| && 'a' <= s[i] <= 'z' :: r[i] == (s[i] as int - 32) as char
    ensures forall i | 0 <= i < |s| && !('a' <= s[i] <= 'z') :: r[i] == s[i]
  {
    seq(|s|, i requires 0 <= i < |s| =>
      if 'a' <= s[i] <= 'z' then (s[i] as int - 32) as char else s[i])
  }

  /**
   * `combined_strings_by(first, second, sep)`: an empty side yields the other
   * unchanged; two non-empty sides are joined by the separator and one space.
   */
  function CombinedStringsBy(first: string, second: string, sep: string): (r: string)
    ensures StartsWith(r, first) && EndsWith(r, second)
    ensures r == "" <==> first == "" && second == ""
    ensures first == "" || second == "" ==> |r| == |first| + |second|
    ensures first != "" && second != "" ==> |r| == |first| + |sep| + 1 + |second|
    ensures first != "" && second != "" ==> r[|first|..|r| - |second|] == sep + " "
  {
    if first == "" then second
    else if second == "" then first
    else first + sep + " " + second
  }

  /** The cases asserted for `combined_strings_by` in the utilities' unit tests. */
  lemma CombinedStringsByExamples()
    ensures CombinedStringsBy("hello", "world", ";") == "hello; world"
    ensures CombinedStringsBy("", "world", ";") == "world"
    ensures CombinedStringsBy("hello", "", ";") == "hello"
  {
  }

  /**
   * A memo combined with tags can be taken apart again at its first "; ":
   * the first piece is the memo and the rest, re-joined, are the tags.
   */
  lemma CombinedSplitsBack(first: string, second: string)
    requires first != "" && second != ""
    requires ';' !in first
    ensures Split(CombinedStringsBy(first, second, ";"), "; ")[0] == first
    ensures Join(Split(CombinedStringsBy(first, second, ";"), "; ")[1..], "; ") == second
  {
    var r := CombinedStringsBy(first, second, ";");
    assert r == first + "; " + second;
    assert r[|first|..|first| + 2] == "; ";
    assert OccursAt(r, "; ", |first|);
    forall j: nat | j < |first| ensures !OccursAt(r, "; ", j) {
      assert r[j] == first[j] && first[j] in first;
      if j + 2 <= |r| {
        assert r[j..j + 2][0] == r[j];
      }
    }
    assert IndexOf(r, "; ") == Some(|first|);
    assert r[..|first|] == first;
    assert r[|first| + 2..] == second;
    assert Split(r, "; ") == [first] + Split(second, "; ");
    assert ([first] + Split(second, "; "))[1..] == Split(second, "; ");
    JoinSplit(second, "; ");
  }

  /** The non-empty strings of `levels`, in order. */
  function NonEmpty(levels: seq<string>): seq<string> {
    Seqs.Filter(levels, (l: string) => l != "")
  }

  /**
   * `custom_join(levels)`: every non-empty level is written after a ":"
   * prefix; empty levels leave no trace.
   */
  function CustomJoin(levels: seq<string>): string
  {
    if levels == [] then ""
    else (if levels[0] == "" then "" else ":" + levels[0]) + CustomJoin(levels[1..])
  }

  /** The cases asserted for `custom_join` in the utilities' unit tests. */
  lemma CustomJoinExamples()
    ensures CustomJoin(["Foo", "Bar", ""]) == ":Foo:Bar"
    ensures CustomJoin(["Foo", "Bar"]) == ":Foo:Bar"
    ensures CustomJoin(["Foo", "", ""]) == ":Foo"
    ensures CustomJoin([""]) == ""
  {
  }

  /** `custom_join` is ":" followed by the colon-join of the non-empty levels (or "" if there are none). */
  lemma {:induction false} CustomJoinIsColonJoin(levels: seq<string>)
    ensures CustomJoin(levels) == if NonEmpty(levels) == [] then "" else ":" + Join(NonEmpty(levels), ":")
  {
    if levels != [] {
      var l := levels[0];
      var rest := levels[1..];
      CustomJoinIsColonJoin(rest);
      var tail := NonEmpty(rest);
      assert CustomJoin(levels) == (if l == "" then "" else ":" + l) + CustomJoin(rest);
      if l != "" {
        assert NonEmpty(levels) == [l] + tail;
        if tail != [] {
          JoinConcat([l], tail, ":");
          assert Join([l] + tail, ":") == l + ":" + Join(tail, ":");
        }
      } else {
        assert NonEmpty(levels) == tail;
      }
    }
  }

  /** Splitting a custom-joined path (after its leading ":") on ":" recovers the non-empty levels. */
  lemma CustomJoinSplitsBack(levels: seq<string>)
    requires forall k | 0 <= k < |levels| :: ':' !in levels[k]
    requires NonEmpty(levels) != []
    ensures |CustomJoin(levels)| > 0 && CustomJoin(levels)[0] == ':'
    ensures |CustomJoin(levels)| > 0 && Split(CustomJoin(levels)[1..], ":") == NonEmpty(levels)
  {
    CustomJoinIsColonJoin(levels);
    var ne := NonEmpty(levels);
    forall k | 0 <= k < |ne| ensures ':' !in ne[k] {
      assert ne[k] in levels;
    }
    SplitJoinChar(ne, ':');
    assert (":" + Join(ne, ":"))[1..] == Join(ne, ":");
  }

  /** The ":"-segments of `candidate` line up exactly with the last segments of `entry`. */
  predicate RightMatches(entry: string, candidate: string) {
    var es := Split(entry, ":");
    var cs := Split(candidate, ":");
    |cs| <= |es| && es[|es| - |cs|..] == cs
  }

  /** A string ends with whatever was appended last. */
  lemma EndsWithAppended(p: string, q: string)
    ensures EndsWith(p + q, q)
  {
    assert (p + q)[|p|..] == q;
  }

  /** Pieces `front + cs` join to a string that ends with `sep` and the join of `cs`. */
  lemma JoinEndsWithJoinOfTail(front: seq<string>, cs: seq<string>, sep: string)
    requires |front| > 0 && |cs| > 0
    ensures EndsWith(Join(front + cs, sep), sep + Join(cs, sep))
  {
    var a := Join(front, sep);
    var b := Join(cs, sep);
    JoinConcat(front, cs, sep);
    assert Join(front + cs, sep) == a + sep + b;
    assert a + sep + b == a + (sep + b);
    EndsWithAppended(a, sep + b);
  }

  /** A list of pieces that ends with `cs` joins to the join of `cs`, or to something ending with `sep` and it. */
  lemma JoinOfSuffix(es: seq<string>, cs: seq<string>, sep: string)
    requires 1 <= |cs| <= |es| && es[|es| - |cs|..] == cs
    ensures Join(es, sep) == Join(cs, sep) || EndsWith(Join(es, sep), sep + Join(cs, sep))
  {
    var m := |es| - |cs|;
    if m > 0 {
      assert es == es[..m] + cs;
      JoinEndsWithJoinOfTail(es[..m], cs, sep);
    } else {
      assert es == cs;
    }
  }

  /** A right match means the entry is the candidate or ends with ":" and the candidate. */
  lemma RightMatchIsSuffix(entry: string, candidate: string)
    requires RightMatches(entry, candidate)
    ensures entry == candidate || EndsWith(entry, ":" + candidate)
  {
    JoinSplit(entry, ":");
    JoinSplit(candidate, ":");
    JoinOfSuffix(Split(entry, ":"), Split(candidate, ":"), ":");
  }

  /** An entry that is the candidate, or ends with ":" and the candidate, right-matches it. */
  lemma SuffixIsRightMatch(entry: string, candidate: string)
    requires entry == candidate || EndsWith(entry, ":" + candidate)
    ensures RightMatches(entry, candidate)
  {
    if entry != candidate {
      var p := entry[..|entry| - |candidate| - 1];
      assert entry == p + [':'] + candidate;
      SplitCharConcat(p, candidate, ':');
      var es := Split(entry, ":");
      var cs := Split(candidate, ":");
      assert es == Split(p, ":") + cs;
      assert es[|es| - |cs|..] == cs;
    }
  }

  /**
   * A right match on whole segments is the same as: the entry is the candidate,
   * or ends with ":" followed by the candidate.
   */
  lemma RightMatchesIsSegmentSuffix(entry: string, candidate: string)
    ensures RightMatches(entry, candidate) <==> entry == candidate || EndsWith(entry, ":" + candidate)
  {
    if RightMatches(entry, candidate) {
      RightMatchIsSuffix(entry, candidate);
    }
    if entry == candidate || EndsWith(entry, ":" + candidate) {
      SuffixIsRightMatch(entry, candidate);
    }
  }

  /**
   * `full_string_right_match(existing, candidate)`: the entries of `existing`
   * (in order) whose ":"-segments end with exactly the segments of `candidate`.
   */
  function FullStringRightMatch(existing: seq<string>, candidate: string): (r: seq<string>)
    ensures |r| <= |existing|
    ensures forall i | 0 <= i < |r| :: r[i] in existing && (r[i] == candidate || EndsWith(r[i], ":" + candidate))
    ensures forall i | 0 <= i < |existing| && (existing[i] == candidate || EndsWith(existing[i], ":" + candidate)) :: existing[i] in r
  {
    var r := Seqs.Filter(existing, (e: string) => RightMatches(e, candidate));
    forall i | 0 <= i < |r| ensures r[i] == candidate || EndsWith(r[i], ":" + candidate) {
      RightMatchesIsSegmentSuffix(r[i], candidate);
    }
    forall i | 0 <= i < |existing| && (existing[i] == candidate || EndsWith(existing[i], ":" + candidate))
      ensures existing[i] in r
    {
      RightMatchesIsSegmentSuffix(existing[i], candidate);
    }
    r
  }

  /** Python's `str(n)` for a natural number. */
  function NatToString(n: nat): (r: string)
    ensures |r| >= 1
    ensures forall i | 0 <= i < |r| :: '0' <= r[i] <= '9'
  {
    var digit := ['0' + (n % 10) as char];
    if n < 10 then digit else NatToString(n / 10) + digit
  }

  /** Python's `int(s)` on a string of decimal digits. */
  function DecimalValue(s: string): nat
    requires forall i | 0 <= i < |s| :: '0' <= s[i] <= '9'
  {
    if s == [] then 0 else DecimalValue(s[..|s| - 1]) * 10 + (s[|s| - 1] - '0') as nat
  }

  /** `int(str(n)) == n`. */
  lemma {:induction false} DecimalValueOfNatToString(n: nat)
    ensures DecimalValue(NatToString(n)) == n
  {
    var r := NatToString(n);
    if n >= 10 {
      assert r[..|r| - 1] == NatToString(n / 10);
      DecimalValueOfNatToString(n / 10);
    }
  }
}
