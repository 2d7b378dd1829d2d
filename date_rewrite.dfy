/**
 * The calendar date rewrite: the first match of the unanchored pattern
 * `(\d{1,2})\/(\d{1,2})\/(\d{4})` in a date cell is turned into
 * `YYYY-MM-DD`, day and month left-padded with `0` to two characters; a cell
 * without a match passes through unchanged.
 */
module DateRewrite {
  import opened Wrappers
  import opened ParseInt

  predicate AllDecimal(s: string) {
    forall i :: 0 <= i < |s| ==> IsDecimalDigit(s[i])
  }

  // ---------------------------------------------------------------------------
  // The pattern, declaratively

  /**
   * The pattern matches at `i` with a first group of `l1` digits and a second
   * group of `l2` digits: the relation a backtracking regular-expression engine
   * searches.
   */
  predicate MatchesWith(s: string, i: nat, l1: nat, l2: nat) {
    1 <= l1 <= 2 && 1 <= l2 <= 2 && i + l1 + l2 + 6 <= |s|
    && AllDecimal(s[i..i + l1]) && s[i + l1] == '/'
    && AllDecimal(s[i + l1 + 1..i + l1 + 1 + l2]) && s[i + l1 + 1 + l2] == '/'
    && AllDecimal(s[i + l1 + l2 + 2..i + l1 + l2 + 6])
  }

  /** The three capture groups of a match. */
  datatype DateParts = DateParts(day: string, month: string, year: string)

  /** The groups the pattern captures: one or two digits, one or two digits, four digits. */
  predicate GroupsShaped(p: DateParts) {
    1 <= |p.day| <= 2 && AllDecimal(p.day)
    && 1 <= |p.month| <= 2 && AllDecimal(p.month)
    && |p.year| == 4 && AllDecimal(p.year)
  }

  function PartsOf(s: string, i: nat, l1: nat, l2: nat): DateParts
    requires MatchesWith(s, i, l1, l2)
  {
    DateParts(s[i..i + l1], s[i + l1 + 1..i + l1 + 1 + l2], s[i + l1 + l2 + 2..i + l1 + l2 + 6])
  }

  // ---------------------------------------------------------------------------
  // The pattern, as the engine runs it

  /** `\d{1,2}` at `i`, greedy: the number of digits (at most two) starting there. */
  function ShortRun(s: string, i: nat): (n: nat)
    requires i <= |s|
    ensures n <= 2 && i + n <= |s|
    ensures AllDecimal(s[i..i + n])
    ensures n < 2 ==> i + n == |s| || !IsDecimalDigit(s[i + n])
  {
    if i < |s| && IsDecimalDigit(s[i]) then
      if i + 1 < |s| && IsDecimalDigit(s[i + 1]) then
        assert s[i..i + 2] == [s[i], s[i + 1]];
        2
      else
        assert s[i..i + 1] == [s[i]];
        1
    else 0
  }

  /** The match starting exactly at `i`, if there is one. */
  function MatchAt(s: string, i: nat): (r: Option<DateParts>)
    requires i <= |s|
    ensures r.Some? ==> GroupsShaped(r.value)
  {
    var l1 := ShortRun(s, i);
    if l1 == 0 || i + l1 >= |s| || s[i + l1] != '/' then None
    else
      var j := i + l1 + 1;
      var l2 := ShortRun(s, j);
      if l2 == 0 || j + l2 >= |s| || s[j + l2] != '/' || j + l2 + 5 > |s|
         || !AllDecimal(s[j + l2 + 1..j + l2 + 5]) then None
      else Some(PartsOf(s, i, l1, l2))
  }

  /** A greedy group that cannot be followed by `/` cannot be shortened into a match either. */
  lemma MatchAtComplete(s: string, i: nat, l1: nat, l2: nat)
    requires MatchesWith(s, i, l1, l2)
    ensures MatchAt(s, i) == Some(PartsOf(s, i, l1, l2))
  {
    assert s[i..i + l1][0] == s[i];
    if l1 == 2 {
      assert s[i..i + l1][1] == s[i + 1];
    }
    var j := i + l1 + 1;
    assert s[j..j + l2][0] == s[j];
    if l2 == 2 {
      assert s[j..j + l2][1] == s[j + 1];
    }
  }

  /** Whatever `MatchAt` returns is a match of the pattern. */
  lemma MatchAtSound(s: string, i: nat)
    requires i <= |s| && MatchAt(s, i).Some?
    ensures exists l1, l2 :: MatchesWith(s, i, l1, l2) && MatchAt(s, i) == Some(PartsOf(s, i, l1, l2))
  {
    var l1 := ShortRun(s, i);
    var l2 := ShortRun(s, i + l1 + 1);
    assert MatchesWith(s, i, l1, l2);
  }

  // ---------------------------------------------------------------------------
  // Leftmost match

  /** `String.prototype.match` without the `g` flag: the leftmost match at or after `i`. */
  function FindDate(s: string, i: nat): (r: Option<DateParts>)
    requires i <= |s|
    ensures r.Some? ==> GroupsShaped(r.value)
    ensures MatchAt(s, i).Some? ==> r == MatchAt(s, i)
    decreases |s| - i
  {
    if MatchAt(s, i).Some? then MatchAt(s, i)
    else if i == |s| then None
    else FindDate(s, i + 1)
  }

  /** `FindDate` finds nothing exactly when no position at or after `i` has a match. */
  lemma {:induction false} FindDateNone(s: string, i: nat)
    requires i <= |s|
    ensures FindDate(s, i).None? <==> forall k :: i <= k <= |s| ==> MatchAt(s, k).None?
    decreases |s| - i
  {
    if MatchAt(s, i).None? && i < |s| {
      FindDateNone(s, i + 1);
    }
  }

  /** What `FindDate` finds is the match at the least position at or after `i` that has one. */
  lemma {:induction false} FindDateLeftmost(s: string, i: nat)
    requires i <= |s| && FindDate(s, i).Some?
    ensures exists k ::
              i <= k <= |s| && FindDate(s, i) == MatchAt(s, k)
              && forall k' :: i <= k' < k ==> MatchAt(s, k').None?
    decreases |s| - i
  {
    if MatchAt(s, i).None? {
      FindDateLeftmost(s, i + 1);
      var k :| i + 1 <= k <= |s| && FindDate(s, i + 1) == MatchAt(s, k)
        && forall k' :: i + 1 <= k' < k ==> MatchAt(s, k').None?;
      assert forall k' :: i <= k' < k ==> MatchAt(s, k').None?;
    } else {
      assert FindDate(s, i) == MatchAt(s, i);
    }
  }

  /** Every match holds a `/` at its start's first slash position, so text without `/` has none. */
  lemma NoSlashNoMatch(s: string)
    requires '/' !in s
    ensures FindDate(s, 0).None?
  {
    FindDateNone(s, 0);
    forall k | 0 <= k <= |s| ensures MatchAt(s, k).None? {
      var l1 := ShortRun(s, k);
      if l1 > 0 && k + l1 < |s| {
        assert s[k + l1] in s;
      }
    }
  }

  // ---------------------------------------------------------------------------
  // The rewrite

  /** `g.padStart(2, '0')`. */
  function Pad2(g: string): (r: string)
    ensures |r| == if |g| >= 2 then |g| else 2
    ensures |g| < 2 ==> r[2 - |g|..] == g && forall k :: 0 <= k < 2 - |g| ==> r[k] == '0'
    ensures |g| >= 2 ==> r == g
  {
    if |g| >= 2 then g else if |g| == 1 then ['0'] + g else "00"
  }

  /** The date the calendar row stores: the rewritten first match, or the cell unchanged. */
  function RewriteDate(s: string): (r: string)
    ensures FindDate(s, 0).None? ==> r == s
    ensures FindDate(s, 0).Some? ==>
      var p := FindDate(s, 0).value;
      r == p.year + "-" + Pad2(p.month) + "-" + Pad2(p.day)
  {
    match FindDate(s, 0)
    case None => s
    case Some(p) => p.year + "-" + Pad2(p.month) + "-" + Pad2(p.day)
  }

  /** `YYYY-MM-DD`: ten characters, digits around two dashes. */
  predicate IsoShaped(r: string) {
    |r| == 10 && r[4] == '-' && r[7] == '-'
    && AllDecimal(r[..4]) && AllDecimal(r[5..7]) && AllDecimal(r[8..])
  }

  lemma PadDigits(g: string)
    requires 1 <= |g| <= 2 && AllDecimal(g)
    ensures |Pad2(g)| == 2 && AllDecimal(Pad2(g))
  {
  }

  /** Four digits, a dash, two digits, a dash, two digits. */
  lemma AssembleIso(y: string, mm: string, dd: string)
    requires |y| == 4 && AllDecimal(y)
    requires |mm| == 2 && AllDecimal(mm)
    requires |dd| == 2 && AllDecimal(dd)
    ensures IsoShaped(y + "-" + mm + "-" + dd)
  {
    var r := y + "-" + mm + "-" + dd;
    assert r[..4] == y;
    assert r[5..7] == mm;
    assert r[8..] == dd;
  }

  /** A cell holding a match becomes an ISO-shaped date. */
  lemma RewriteShape(s: string)
    requires FindDate(s, 0).Some?
    ensures IsoShaped(RewriteDate(s))
  {
    var p := FindDate(s, 0).value;
    PadDigits(p.month);
    PadDigits(p.day);
    AssembleIso(p.year, Pad2(p.month), Pad2(p.day));
  }

  /** An ISO-shaped date holds no `/`. */
  lemma IsoHasNoSlash(r: string)
    requires IsoShaped(r)
    ensures '/' !in r
  {
    forall k | 0 <= k < |r| ensures r[k] != '/' {
      if k < 4 {
        assert r[k] == r[..4][k];
      } else if 5 <= k < 7 {
        assert r[k] == r[5..7][k - 5];
      } else if 8 <= k {
        assert r[k] == r[8..][k - 8];
      }
    }
  }

  /** A match always holds a `/`. */
  lemma MatchHasSlash(s: string)
    requires FindDate(s, 0).Some?
    ensures '/' in s
  {
    if '/' !in s {
      NoSlashNoMatch(s);
    }
  }

  /** The rewrite changes the cell exactly when the cell holds a match. */
  lemma RewriteChangesIffMatch(s: string)
    ensures RewriteDate(s) != s <==> FindDate(s, 0).Some?
  {
    if FindDate(s, 0).Some? {
      RewriteShape(s);
      IsoHasNoSlash(RewriteDate(s));
      MatchHasSlash(s);
    }
  }

  /** Rewriting an already rewritten date changes nothing. */
  lemma RewriteIdempotent(s: string)
    ensures RewriteDate(RewriteDate(s)) == RewriteDate(s)
  {
    if FindDate(s, 0).Some? {
      RewriteShape(s);
      IsoHasNoSlash(RewriteDate(s));
      NoSlashNoMatch(RewriteDate(s));
    }
  }

  /** The pieces of `d/m/yrest` sit where the pattern looks for them. */
  lemma DatePieces(d: string, m: string, y: string, rest: string)
    requires |y| == 4
    ensures var s := d + "/" + m + "/" + y + rest;
      |s| >= |d| + |m| + 6
      && s[..|d|] == d && s[|d|] == '/'
      && s[|d| + 1..|d| + 1 + |m|] == m && s[|d| + 1 + |m|] == '/'
      && s[|d| + |m| + 2..|d| + |m| + 6] == y
  {
  }

  /** A cell that starts with `D/M/YYYY` (one or two digits each for day and month) is rewritten from it. */
  lemma RewriteDayMonthYear(d: string, m: string, y: string, rest: string)
    requires 1 <= |d| <= 2 && AllDecimal(d)
    requires 1 <= |m| <= 2 && AllDecimal(m)
    requires |y| == 4 && AllDecimal(y)
    ensures RewriteDate(d + "/" + m + "/" + y + rest) == y + "-" + Pad2(m) + "-" + Pad2(d)
  {
    var s := d + "/" + m + "/" + y + rest;
    DatePieces(d, m, y, rest);
    assert MatchesWith(s, 0, |d|, |m|);
    MatchAtComplete(s, 0, |d|, |m|);
    assert PartsOf(s, 0, |d|, |m|) == DateParts(d, m, y);
  }

  /** `"03/02/2026"` is stored as `"2026-02-03"`. */
  lemma RewriteExample(s: string)
    requires s == "03/02/2026"
    ensures RewriteDate(s) == "2026-02-03"
  {
    ExampleSplits();
    RewriteDayMonthYear("03", "02", "2026", "");
    ExampleJoins();
  }

  /** Day and month are padded: `"3/2/2026"` is stored as `"2026-02-03"`. */
  lemma RewritePadsExample(s: string)
    requires s == "3/2/2026"
    ensures RewriteDate(s) == "2026-02-03"
  {
    ExampleSplits();
    RewriteDayMonthYear("3", "2", "2026", "");
    ExampleJoins();
  }

  /** No range check: `"99/99/9999"` is stored as `"9999-99-99"`. */
  lemma RewriteNoRangeCheck(s: string)
    requires s == "99/99/9999"
    ensures RewriteDate(s) == "9999-99-99"
  {
    ExampleSplits();
    RewriteDayMonthYear("99", "99", "9999", "");
    ExampleJoins();
  }

  lemma ExampleSplits()
    ensures "03/02/2026" == "03" + "/" + "02" + "/" + "2026" + ""
    ensures "3/2/2026" == "3" + "/" + "2" + "/" + "2026" + ""
    ensures "99/99/9999" == "99" + "/" + "99" + "/" + "9999" + ""
  {
  }

  lemma ExampleJoins()
    ensures "2026" + "-" + Pad2("02") + "-" + Pad2("03") == "2026-02-03"
    ensures "2026" + "-" + Pad2("2") + "-" + Pad2("3") == "2026-02-03"
    ensures "9999" + "-" + Pad2("99") + "-" + Pad2("99") == "9999-99-99"
  {
  }

  /** An ISO date passes through unchanged. */
  lemma RewriteKeepsIso()
    ensures RewriteDate("2026-02-03") == "2026-02-03"
  {
    NoSlashNoMatch("2026-02-03");
  }
}
