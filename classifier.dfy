/**
 * The GnuCash account-type guess of `_add_account_types_of`: the upper-cased
 * full path is scanned left to right for the keywords of a fixed table (a
 * regular-expression alternation, first keyword in table order wins at each
 * position), every hit names a candidate type, and `chosen_type` picks one of
 * the candidates by the account's placeholder status.
 */
module Classifier {
  import opened Wrappers
  import opened Strings

  datatype AccountType =
    | Asset | Liability | Equity | Income | Expense | Cash | Bank
    | Credit | Payable | Receivable | Stock | Mutual | Trading

  /**
   * The keywords that name each type. In the source each entry is a Python
   * set, whose iteration order is not fixed; the order written here is one of
   * them, and `ScanIgnoresSynonymOrder` shows that the order does not matter.
   */
  function SynonymsOf(t: AccountType): seq<string>
  {
    match t
    case Asset => ["ASSET", "ASSETS"]
    case Liability => ["LIABILITY", "LIABILITIES"]
    case Equity => ["EQUITY", "EQUITIES"]
    case Income => ["INCOME", "INCOMES"]
    case Expense => ["EXPENSE", "EXPENSES", "ADJUSTMENT"]
    case Cash => ["CASH"]
    case Bank => ["CHECKING", "ACCOUNT"]
    case Credit => ["CREDIT CARD", "CREDIT CARDS"]
    case Payable => ["ACCOUNTS PAYABLE", "PAYABLE"]
    case Receivable => ["ACCOUNTS RECEIVABLE", "RECEIVABLES"]
    case Stock => ["BROKERAGE"]
    case Mutual => ["MUTUAL FUND", "MONEY MARKET FUND", "FUND"]
    case Trading => ["OTHER"]
  }

  type KeywordTable = seq<(AccountType, seq<string>)>

  /** The table as the scan uses it: each type with its keywords, in the dict's insertion order. */
  const Keywords: KeywordTable := [
    (Asset, SynonymsOf(Asset)), (Liability, SynonymsOf(Liability)), (Equity, SynonymsOf(Equity)),
    (Income, SynonymsOf(Income)), (Expense, SynonymsOf(Expense)), (Cash, SynonymsOf(Cash)),
    (Bank, SynonymsOf(Bank)), (Credit, SynonymsOf(Credit)), (Payable, SynonymsOf(Payable)),
    (Receivable, SynonymsOf(Receivable)), (Stock, SynonymsOf(Stock)), (Mutual, SynonymsOf(Mutual)),
    (Trading, SynonymsOf(Trading))
  ]

  /** No keyword is empty, so every hit moves the scan forward. */
  predicate WellFormed(table: KeywordTable)
  {
    forall b, k | 0 <= b < |table| && k in table[b].1 :: |k| > 0
  }

  /** The first keyword of `syns`, in order, that occurs in `s` at `i`. */
  function FirstSynonymAt(syns: seq<string>, s: string, i: nat): (r: Option<string>)
    ensures r.Some? ==> r.value in syns && i + |r.value| <= |s|
  {
    if syns == [] then None
    else if OccursAt(s, syns[0], i) then Some(syns[0])
    else FirstSynonymAt(syns[1..], s, i)
  }

  /** The keyword found occurs there, and none is found only when none of them occurs. */
  lemma {:induction false} FirstSynonymAtOccurs(syns: seq<string>, s: string, i: nat)
    ensures FirstSynonymAt(syns, s, i).Some? ==> OccursAt(s, FirstSynonymAt(syns, s, i).value, i)
    ensures FirstSynonymAt(syns, s, i).None? <==> forall k | k in syns :: !OccursAt(s, k, i)
  {
    if syns != [] && !OccursAt(s, syns[0], i) {
      FirstSynonymAtOccurs(syns[1..], s, i);
      assert forall k | k in syns :: k == syns[0] || k in syns[1..];
    }
  }

  /** The hit at position `i`: the first entry of the table with a keyword there. */
  function MatchAt(table: KeywordTable, s: string, i: nat): (r: Option<(AccountType, string)>)
    requires WellFormed(table)
    ensures r.Some? ==> |r.value.1| > 0 && i + |r.value.1| <= |s|
  {
    if table == [] then None
    else
      match FirstSynonymAt(table[0].1, s, i)
      case Some(k) => Some((table[0].0, k))
      case None => MatchAt(table[1..], s, i)
  }

  /** A hit is a keyword of the entry whose type it reports, and it occurs at the position. */
  lemma {:induction false} MatchAtHit(table: KeywordTable, s: string, i: nat)
    requires WellFormed(table) && MatchAt(table, s, i).Some?
    ensures OccursAt(s, MatchAt(table, s, i).value.1, i)
    ensures exists b | 0 <= b < |table| :: table[b].0 == MatchAt(table, s, i).value.0 && MatchAt(table, s, i).value.1 in table[b].1
  {
    FirstSynonymAtOccurs(table[0].1, s, i);
    if FirstSynonymAt(table[0].1, s, i).None? {
      var rest := table[1..];
      MatchAtHit(rest, s, i);
      var r := MatchAt(rest, s, i);
      var b :| 0 <= b < |rest| && rest[b].0 == r.value.0 && r.value.1 in rest[b].1;
      assert rest[b] == table[b + 1];
    }
  }

  /** There is no hit exactly when no keyword of the table occurs at the position. */
  lemma {:induction false} MatchAtMiss(table: KeywordTable, s: string, i: nat)
    requires WellFormed(table)
    ensures MatchAt(table, s, i).None? <==> forall b, k | 0 <= b < |table| && k in table[b].1 :: !OccursAt(s, k, i)
  {
    if table != [] {
      FirstSynonymAtOccurs(table[0].1, s, i);
      if FirstSynonymAt(table[0].1, s, i).None? {
        var rest := table[1..];
        MatchAtMiss(rest, s, i);
        if MatchAt(rest, s, i).None? {
          forall b, k | 0 <= b < |table| && k in table[b].1 ensures !OccursAt(s, k, i) {
            if b > 0 {
              assert table[b] == rest[b - 1];
            }
          }
        } else {
          var b, k :| 0 <= b < |rest| && k in rest[b].1 && OccursAt(s, k, i);
          assert table[b + 1] == rest[b];
        }
      }
    }
  }

  /** `re.findall` with the alternation of all keywords, from position `i` on. */
  function Scan(table: KeywordTable, s: string, i: nat): seq<AccountType>
    requires WellFormed(table) && i <= |s|
    decreases |s| - i
  {
    if i == |s| then []
    else
      var hit := MatchAt(table, s, i);
      if hit.None? then Scan(table, s, i + 1)
      else [hit.value.0] + Scan(table, s, i + |hit.value.1|)
  }

  /** Without a hit at `i`, the scan moves on by one character. */
  lemma ScanStepNone(table: KeywordTable, s: string, i: nat)
    requires WellFormed(table) && i < |s| && MatchAt(table, s, i).None?
    ensures Scan(table, s, i) == Scan(table, s, i + 1)
  {
  }

  /** A hit at `i` is reported and the scan resumes after it. */
  lemma ScanStepSome(table: KeywordTable, s: string, i: nat, t: AccountType, k: string)
    requires WellFormed(table) && i < |s| && MatchAt(table, s, i) == Some((t, k))
    ensures i + |k| <= |s|
    ensures Scan(table, s, i) == [t] + Scan(table, s, i + |k|)
  {
  }

  /** The candidate types of an upper-cased path. */
  function CandidateTypes(upper: string): seq<AccountType>
  {
    KeywordsWellFormed();
    Scan(Keywords, upper, 0)
  }

  /** Some keyword of type `t` occurs somewhere in `s`. */
  predicate Mentions(s: string, t: AccountType)
  {
    exists k | k in SynonymsOf(t) :: Contains(s, k)
  }

  /**
   * `chosen_type`: an income or expense hit first decides; otherwise a
   * placeholder takes the second-to-last hit (a parent is one level more
   * general than its deepest keyword) and a real account the last one.
   */
  function ChosenType(candidates: seq<AccountType>, placeholder: bool): (r: AccountType)
    requires |candidates| >= 1
    ensures r in candidates
    ensures candidates[0] in {Income, Expense} ==> r == candidates[0]
    ensures candidates[0] !in {Income, Expense} && !placeholder ==> r == candidates[|candidates| - 1]
    ensures candidates[0] !in {Income, Expense} && placeholder && |candidates| >= 2 ==> r == candidates[|candidates| - 2]
    ensures |candidates| == 1 ==> r == candidates[0]
  {
    var n := |candidates|;
    var accountChoice := if n > 0 then n - 1 else 0;
    var placeholderChoice := if n > 1 then n - 2 else 0;
    if candidates[0] == Income || candidates[0] == Expense then candidates[0]
    else if placeholder then candidates[placeholderChoice]
    else candidates[accountChoice]
  }

  /**
   * The selected type of one account row; `None` where the source raises
   * IndexError because no keyword occurs in the path.
   */
  function Classify(path: string, placeholder: bool): (r: Option<AccountType>)
    ensures r.None? <==> forall t :: !Mentions(Upper(path), t)
    ensures r.Some? ==> Mentions(Upper(path), r.value)
  {
    var candidates := CandidateTypes(Upper(path));
    KeywordsWellFormed();
    ScanComplete(Upper(path));
    if candidates == [] then None
    else
      var chosen := ChosenType(candidates, placeholder);
      ScanSound(Keywords, Upper(path), 0);
      MentionedInKeywords(Upper(path), chosen);
      Some(chosen)
  }

  /** The table has no empty keyword and lists each type with exactly its own keywords. */
  lemma KeywordsWellFormed()
    ensures WellFormed(Keywords) && Faithful(Keywords)
  {
    forall b, k | 0 <= b < |Keywords| && k in Keywords[b].1 ensures |k| > 0 {
      NoKeywordStartsWithS(Keywords[b].0, k);
    }
  }

  /** Every type has an entry in the table. */
  lemma EveryTypeListed(t: AccountType)
    ensures exists b | 0 <= b < |Keywords| :: Keywords[b].0 == t
  {
    var b := match t
      case Asset => 0 case Liability => 1 case Equity => 2 case Income => 3 case Expense => 4
      case Cash => 5 case Bank => 6 case Credit => 7 case Payable => 8 case Receivable => 9
      case Stock => 10 case Mutual => 11 case Trading => 12;
    assert Keywords[b].0 == t;
  }

  /** No keyword is empty or begins with 'S'. */
  lemma NoKeywordStartsWithS(t: AccountType, k: string)
    requires k in SynonymsOf(t)
    ensures |k| > 0 && k[0] != 'S'
  {
  }

  /** Two keywords of one type that share a start differ at most by a plural "S". */
  lemma PluralOnly(t: AccountType, x: string, y: string)
    requires x in SynonymsOf(t) && y in SynonymsOf(t) && PrefixOf(x, y)
    ensures y == x || (|y| == |x| + 1 && y[|x|] == 'S')
  {
    assert y[0] == x[0] && y[1] == x[1] && y[|x| - 1] == x[|x| - 1] by {
      assert y[..|x|][0] == x[0] && y[..|x|][1] == x[1] && y[..|x|][|x| - 1] == x[|x| - 1];
    }
  }

  /** Each entry of `table` lists exactly the keywords of its type. */
  predicate Faithful(table: KeywordTable)
  {
    forall b | 0 <= b < |table| :: table[b].1 == SynonymsOf(table[b].0)
  }

  /** Some keyword that `table` lists for `t` occurs in `s`. */
  predicate MentionedIn(table: KeywordTable, s: string, t: AccountType)
  {
    exists b, k | 0 <= b < |table| && k in table[b].1 :: table[b].0 == t && Contains(s, k)
  }

  /** Every type the scan reports has one of its keywords in the path. */
  lemma {:induction false} ScanSound(table: KeywordTable, s: string, i: nat)
    requires WellFormed(table) && i <= |s|
    ensures forall t | t in Scan(table, s, i) :: MentionedIn(table, s, t)
    decreases |s| - i
  {
    if i < |s| {
      var hit := MatchAt(table, s, i);
      if hit.None? {
        ScanStepNone(table, s, i);
        ScanSound(table, s, i + 1);
      } else {
        var rest := Scan(table, s, i + |hit.value.1|);
        ScanSound(table, s, i + |hit.value.1|);
        HitMentioned(table, s, i);
        ScanStepSome(table, s, i, hit.value.0, hit.value.1);
        forall t | t in Scan(table, s, i) ensures MentionedIn(table, s, t) {
          if t != hit.value.0 {
            assert t in rest;
          }
        }
      }
    }
  }

  /** The type of a hit has one of its keywords in the path. */
  lemma HitMentioned(table: KeywordTable, s: string, i: nat)
    requires WellFormed(table) && MatchAt(table, s, i).Some?
    ensures MentionedIn(table, s, MatchAt(table, s, i).value.0)
  {
    MatchAtHit(table, s, i);
    var t := MatchAt(table, s, i).value.0;
    var k := MatchAt(table, s, i).value.1;
    var b :| 0 <= b < |table| && table[b].0 == t && k in table[b].1;
    assert OccursAt(s, k, i) && Contains(s, k);
  }

  /** For the source's table, being mentioned through the table is `Mentions`. */
  lemma MentionedInKeywords(s: string, t: AccountType)
    requires MentionedIn(Keywords, s, t)
    ensures Mentions(s, t)
  {
    KeywordsWellFormed();
    var b, k :| 0 <= b < |Keywords| && k in Keywords[b].1 && Keywords[b].0 == t && Contains(s, k);
    assert k in SynonymsOf(t);
  }

  /** A scan that reports nothing saw no keyword at any later position. */
  lemma {:induction false} EmptyScanSeesNothing(table: KeywordTable, s: string, i: nat)
    requires WellFormed(table) && i <= |s|
    requires Scan(table, s, i) == []
    ensures forall j, b, k | i <= j < |s| && 0 <= b < |table| && k in table[b].1 :: !OccursAt(s, k, j)
    decreases |s| - i
  {
    if i < |s| {
      MatchAtMiss(table, s, i);
      EmptyScanSeesNothing(table, s, i + 1);
    }
  }

  /** The scan reports nothing only when no keyword of any type is in the path. */
  lemma ScanComplete(s: string)
    ensures WellFormed(Keywords)
    ensures CandidateTypes(s) == [] ==> forall t :: !Mentions(s, t)
  {
    KeywordsWellFormed();
    if CandidateTypes(s) == [] {
      EmptyScanSeesNothing(Keywords, s, 0);
      forall t ensures !Mentions(s, t) {
        EveryTypeListed(t);
        var b :| 0 <= b < |Keywords| && Keywords[b].0 == t;
        forall k | k in SynonymsOf(t) ensures !Contains(s, k) {
          NoKeywordStartsWithS(t, k);
          assert k in Keywords[b].1;
        }
      }
    }
  }

  /** The table as some run may order it: the same entries, each keyword set in any order. */
  ghost predicate SameSynonyms(table: KeywordTable, other: KeywordTable)
  {
    && |table| == |other|
    && forall b | 0 <= b < |table| ::
         && table[b].0 == other[b].0
         && forall k :: k in table[b].1 <==> k in other[b].1
  }

  /** At one position, reordering keyword sets keeps the hit's type and the hit's entry. */
  lemma {:induction false} MatchAtSameSynonyms(table: KeywordTable, other: KeywordTable, s: string, i: nat)
    requires WellFormed(table) && WellFormed(other) && SameSynonyms(table, other)
    ensures MatchAt(table, s, i).None? <==> MatchAt(other, s, i).None?
    ensures MatchAt(table, s, i).Some? ==>
      && MatchAt(table, s, i).value.0 == MatchAt(other, s, i).value.0
      && exists b | 0 <= b < |other| :: MatchAt(table, s, i).value.1 in other[b].1 && MatchAt(other, s, i).value.1 in other[b].1
    decreases |table|
  {
    if table != [] {
      var f1 := FirstSynonymAt(table[0].1, s, i);
      var f2 := FirstSynonymAt(other[0].1, s, i);
      FirstSynonymAtOccurs(table[0].1, s, i);
      FirstSynonymAtOccurs(other[0].1, s, i);
      if f1.Some? {
        assert f1.value in other[0].1;
        assert f2.Some?;
      } else {
        assert f2.None? by {
          forall k | k in other[0].1 ensures !OccursAt(s, k, i) {
            assert k in table[0].1;
          }
        }
        assert SameSynonyms(table[1..], other[1..]) by {
          forall b | 0 <= b < |table[1..]| ensures table[1..][b] == table[b + 1] && other[1..][b] == other[b + 1] {
          }
        }
        MatchAtSameSynonyms(table[1..], other[1..], s, i);
        var m := MatchAt(table[1..], s, i);
        if m.Some? {
          var b :| 0 <= b < |other[1..]| && m.value.1 in other[1..][b].1 && MatchAt(other[1..], s, i).value.1 in other[1..][b].1;
          assert other[1..][b] == other[b + 1];
        }
      }
    }
  }

  /** No keyword of `table` is empty or begins with 'S'. */
  predicate NoLeadingS(table: KeywordTable)
  {
    forall b, k | 0 <= b < |table| && k in table[b].1 :: |k| > 0 && k[0] != 'S'
  }

  /** `x` is a prefix of `y`. */
  predicate PrefixOf(x: string, y: string)
  {
    |x| <= |y| && y[..|x|] == x
  }

  /** Two keywords of `syns` of which one starts the other differ at most by a trailing 'S'. */
  predicate PluralClosedBlock(syns: seq<string>)
  {
    forall x, y {:trigger PrefixOf(x, y)} | x in syns && y in syns && PrefixOf(x, y) ::
      y == x || (|y| == |x| + 1 && y[|x|] == 'S')
  }

  /** Every entry of `table` is plural-closed. */
  predicate PluralClosed(table: KeywordTable)
  {
    forall b | 0 <= b < |table| :: PluralClosedBlock(table[b].1)
  }

  /** The keywords of each type are plural-closed. */
  lemma SynonymsPluralClosed(t: AccountType)
    ensures PluralClosedBlock(SynonymsOf(t))
  {
    forall x, y | x in SynonymsOf(t) && y in SynonymsOf(t) && PrefixOf(x, y)
      ensures y == x || (|y| == |x| + 1 && y[|x|] == 'S')
    {
      PluralOnly(t, x, y);
    }
  }

  /** A table faithful to `SynonymsOf` has both properties that make keyword order irrelevant. */
  lemma FaithfulOrderFree(table: KeywordTable)
    requires Faithful(table)
    ensures NoLeadingS(table) && PluralClosed(table)
  {
    forall b, k | 0 <= b < |table| && k in table[b].1 ensures |k| > 0 && k[0] != 'S' {
      NoKeywordStartsWithS(table[b].0, k);
    }
    forall b | 0 <= b < |table| ensures PluralClosedBlock(table[b].1) {
      SynonymsPluralClosed(table[b].0);
    }
  }

  /** The source's table has both properties. */
  lemma KeywordsOrderFree()
    ensures WellFormed(Keywords) && Faithful(Keywords)
    ensures NoLeadingS(Keywords) && PluralClosed(Keywords)
  {
    KeywordsWellFormed();
    FaithfulOrderFree(Keywords);
  }

  /** At a position holding 'S' a table without keywords starting with 'S' has no hit. */
  lemma NoHitAtS(table: KeywordTable, s: string, p: nat)
    requires NoLeadingS(table) && p < |s| && s[p] == 'S'
    ensures WellFormed(table)
    ensures MatchAt(table, s, p).None?
  {
    MatchAtMiss(table, s, p);
    forall b, k | 0 <= b < |table| && k in table[b].1 ensures !OccursAt(s, k, p) {
      if p + |k| <= |s| {
        assert s[p..p + |k|][0] != k[0];
      }
    }
  }

  /** `long` is `short` plus an 'S' in `s` after position `i`, and `table` has no hit at that 'S'. */
  predicate PluralStep(table: KeywordTable, s: string, i: nat, short: string, long: string)
    requires WellFormed(table)
  {
    && |long| == |short| + 1 && i + |long| <= |s|
    && s[i + |short|] == 'S'
    && MatchAt(table, s, i + |short|).None?
  }

  /**
   * Of two keywords of one entry found at one position, the longer is the
   * shorter one plus an 'S', and no keyword starts at that 'S'.
   */
  lemma LongerHitEndsInS(table: KeywordTable, s: string, i: nat, b: nat, short: string, long: string)
    requires NoLeadingS(table) && PluralClosed(table)
    requires b < |table| && short in table[b].1 && long in table[b].1 && |short| <= |long|
    requires OccursAt(s, short, i) && OccursAt(s, long, i)
    ensures WellFormed(table)
    ensures long == short || PluralStep(table, s, i, short, long)
  {
    assert long[..|short|] == s[i..i + |short|];
    assert PrefixOf(short, long);
    assert PluralClosedBlock(table[b].1);
    if long != short {
      assert s[i + |short|] == long[|short|];
      NoHitAtS(table, s, i + |short|);
    }
  }

  /** The scan after the longer keyword of a plural step is the scan after the shorter. */
  lemma SkipPluralS(table: KeywordTable, s: string, i: nat, short: string, long: string)
    requires WellFormed(table) && PluralStep(table, s, i, short, long)
    ensures Scan(table, s, i + |short|) == Scan(table, s, i + |long|)
  {
    ScanStepNone(table, s, i + |short|);
  }

  /** The two tables' hits at `i`: both miss, or they report one type with equal keywords or a plural step between them. */
  predicate HitsAgree(table: KeywordTable, canonical: KeywordTable, s: string, i: nat)
    requires WellFormed(table) && WellFormed(canonical)
  {
    var h1 := MatchAt(table, s, i);
    var h2 := MatchAt(canonical, s, i);
    && (h1.None? <==> h2.None?)
    && (h1.Some? ==>
         && h1.value.0 == h2.value.0
         && i + |h1.value.1| <= |s| && i + |h2.value.1| <= |s|
         && (|| h1.value.1 == h2.value.1
             || PluralStep(canonical, s, i, h1.value.1, h2.value.1)
             || PluralStep(canonical, s, i, h2.value.1, h1.value.1)))
  }

  /**
   * Whatever order a run gives each keyword set, the candidate types are the
   * same: two hits of one type at one position differ only by a trailing "S",
   * and no keyword begins at an 'S'.
   */
  lemma {:induction false} ScanIgnoresSynonymOrder(table: KeywordTable, canonical: KeywordTable, s: string, i: nat)
    requires WellFormed(table) && NoLeadingS(canonical) && PluralClosed(canonical)
    requires SameSynonyms(table, canonical) && i <= |s|
    ensures WellFormed(canonical)
    ensures Scan(table, s, i) == Scan(canonical, s, i)
    decreases |s| - i
  {
    if i < |s| {
      SameHit(table, canonical, s, i);
      ScanIgnoresSynonymOrder(table, canonical, s, Resume(table, s, i));
      StepAgrees(table, canonical, s, i);
    }
  }

  /** Where the scan goes on after position `i`: past the hit, or one character on. */
  function Resume(table: KeywordTable, s: string, i: nat): (next: nat)
    requires WellFormed(table) && i < |s|
    ensures i < next <= |s|
  {
    var hit := MatchAt(table, s, i);
    if hit.None? then i + 1 else i + |hit.value.1|
  }

  /** One step of the induction: with agreeing hits at `i` and agreeing scans from where the reordered scan resumes, the scans agree at `i`. */
  lemma StepAgrees(table: KeywordTable, canonical: KeywordTable, s: string, i: nat)
    requires WellFormed(table) && WellFormed(canonical) && i < |s|
    requires HitsAgree(table, canonical, s, i)
    requires Scan(table, s, Resume(table, s, i)) == Scan(canonical, s, Resume(table, s, i))
    ensures Scan(table, s, i) == Scan(canonical, s, i)
  {
    if MatchAt(table, s, i).None? {
      ScanStepNone(table, s, i);
      ScanStepNone(canonical, s, i);
    } else {
      var t := MatchAt(table, s, i).value.0;
      var k1 := MatchAt(table, s, i).value.1;
      var k2 := MatchAt(canonical, s, i).value.1;
      if PluralStep(canonical, s, i, k1, k2) {
        SkipPluralS(canonical, s, i, k1, k2);
      } else if PluralStep(canonical, s, i, k2, k1) {
        SkipPluralS(canonical, s, i, k2, k1);
      }
      ScanStepSome(table, s, i, t, k1);
      ScanStepSome(canonical, s, i, t, k2);
    }
  }

  /** At one position the reordered table and the canonical one agree in the sense of `HitsAgree`. */
  lemma SameHit(table: KeywordTable, canonical: KeywordTable, s: string, i: nat)
    requires WellFormed(table) && NoLeadingS(canonical) && PluralClosed(canonical)
    requires SameSynonyms(table, canonical)
    ensures WellFormed(canonical)
    ensures HitsAgree(table, canonical, s, i)
  {
    MatchAtSameSynonyms(table, canonical, s, i);
    if MatchAt(table, s, i).Some? {
      MatchAtHit(table, s, i);
      MatchAtHit(canonical, s, i);
      var k1 := MatchAt(table, s, i).value.1;
      var k2 := MatchAt(canonical, s, i).value.1;
      var b :| 0 <= b < |canonical| && k1 in canonical[b].1 && k2 in canonical[b].1;
      SameEntryHits(canonical, s, i, b, k1, k2);
    }
  }

  /** Two keywords of one entry found at one position: equal, or a plural step apart. */
  lemma SameEntryHits(canonical: KeywordTable, s: string, i: nat, b: nat, k1: string, k2: string)
    requires NoLeadingS(canonical) && PluralClosed(canonical)
    requires b < |canonical| && k1 in canonical[b].1 && k2 in canonical[b].1
    requires OccursAt(s, k1, i) && OccursAt(s, k2, i)
    ensures WellFormed(canonical)
    ensures i + |k1| <= |s| && i + |k2| <= |s|
    ensures k1 == k2 || PluralStep(canonical, s, i, k1, k2) || PluralStep(canonical, s, i, k2, k1)
  {
    if |k1| <= |k2| {
      LongerHitEndsInS(canonical, s, i, b, k1, k2);
    } else {
      LongerHitEndsInS(canonical, s, i, b, k2, k1);
    }
  }

  /** The candidate types of a path do not depend on the order of any keyword set. */
  lemma CandidateTypesIgnoreSynonymOrder(table: KeywordTable, upper: string)
    requires WellFormed(table) && SameSynonyms(table, Keywords)
    ensures Scan(table, upper, 0) == CandidateTypes(upper)
  {
    KeywordsOrderFree();
    ScanIgnoresSynonymOrder(table, Keywords, upper, 0);
  }

  /**
   * The hit at a position comes from the first entry with a keyword there:
   * when a keyword of entry `b` occurs and none of an earlier entry does, the
   * hit has entry `b`'s type.
   */
  lemma {:induction false} MatchAtEntry(table: KeywordTable, s: string, i: nat, b: nat, k: string)
    requires WellFormed(table) && b < |table| && k in table[b].1 && OccursAt(s, k, i)
    requires forall c, x | 0 <= c < b && x in table[c].1 :: !OccursAt(s, x, i)
    ensures MatchAt(table, s, i).Some? && MatchAt(table, s, i).value.0 == table[b].0
    decreases b
  {
    FirstSynonymAtOccurs(table[0].1, s, i);
    if b > 0 {
      var rest := table[1..];
      forall c, x | 0 <= c < b - 1 && x in rest[c].1 ensures !OccursAt(s, x, i) {
        assert rest[c] == table[c + 1];
      }
      MatchAtEntry(rest, s, i, b - 1, k);
    }
  }

  /** A keyword found at a position agrees with the text there, character by character. */
  lemma OccursAtChar(s: string, k: string, i: nat, j: nat)
    requires OccursAt(s, k, i) && j < |k|
    ensures s[i + j] == k[j]
  {
    assert s[i..i + |k|][j] == s[i + j];
  }

  /** No keyword of the entries before INCOME (or before EXPENSE) occurs where "INCOME" (or "EXPENSE") does. */
  lemma NoEarlierKeyword(s: string, b: nat, k: string)
    requires (b == 3 && k == "INCOME") || (b == 4 && k == "EXPENSE")
    requires OccursAt(s, k, 0)
    ensures forall c, x | 0 <= c < b && x in Keywords[c].1 :: !OccursAt(s, x, 0)
  {
    forall c, x | 0 <= c < b && x in Keywords[c].1 ensures !OccursAt(s, x, 0) {
      if OccursAt(s, x, 0) {
        OccursAtChar(s, x, 0, 0);
        OccursAtChar(s, x, 0, 1);
        OccursAtChar(s, k, 0, 0);
        OccursAtChar(s, k, 0, 1);
      }
    }
  }

  /**
   * A path whose upper-cased form starts with "INCOME" or "EXPENSE" is
   * classified as that type, whatever else it holds and whatever its
   * placeholder status: the income or expense hit comes first and decides.
   */
  lemma LeadingIncomeOrExpense(path: string, placeholder: bool)
    requires StartsWith(Upper(path), "INCOME") || StartsWith(Upper(path), "EXPENSE")
    ensures Classify(path, placeholder) == Some(if StartsWith(Upper(path), "INCOME") then Income else Expense)
  {
    var s := Upper(path);
    KeywordsWellFormed();
    var income := StartsWith(s, "INCOME");
    var b: nat := if income then 3 else 4;
    var k := if income then "INCOME" else "EXPENSE";
    assert s[0..|k|] == k;
    NoEarlierKeyword(s, b, k);
    MatchAtEntry(Keywords, s, 0, b, k);
    var hit := MatchAt(Keywords, s, 0);
    ScanStepSome(Keywords, s, 0, hit.value.0, hit.value.1);
    assert CandidateTypes(s)[0] == Keywords[b].0;
  }
}
