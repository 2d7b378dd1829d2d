/**
 * Header resolution of the sheet importer: `normalizeHeader`, `findColumn`
 * and the two column maps built from them (events grid and calendar grid).
 */
module Headers {
  import opened JsText

  /** The Unicode block U+0300..U+036F that `normalizeHeader` deletes. */
  predicate IsCombiningMark(c: char) {
    '\U{0300}' <= c <= '\U{036F}'
  }

  predicate NoMarks(s: string) {
    forall i :: 0 <= i < |s| ==> !IsCombiningMark(s[i])
  }

  /**
   * Canonical decomposition (NFD) of U+00E0..U+00FF, position by position:
   * the base letter and the combining mark, or U+0000 in `NfdMarks` for the
   * letters that do not decompose (U+00E6, U+00F0, U+00F7, U+00F8, U+00FE).
   */
  const NfdBases: string := "aaaaaa\U{00E6}ceeeeiiii\U{00F0}nooooo\U{00F7}\U{00F8}uuuuy\U{00FE}y"
  const NfdMarks: string := "\U{0300}\U{0301}\U{0302}\U{0303}\U{0308}\U{030A}\U{0000}\U{0327}"
    + "\U{0300}\U{0301}\U{0302}\U{0308}\U{0300}\U{0301}\U{0302}\U{0308}"
    + "\U{0000}\U{0303}\U{0300}\U{0301}\U{0302}\U{0303}\U{0308}\U{0000}"
    + "\U{0000}\U{0300}\U{0301}\U{0302}\U{0308}\U{0301}\U{0000}\U{0308}"

  lemma NfdTables()
    ensures |NfdBases| == 32 && |NfdMarks| == 32
    ensures forall i :: 0 <= i < 32 ==> NfdBases[i] < '\U{0100}' && !IsUpper(NfdBases[i]) && !IsCombiningMark(NfdBases[i])
    ensures forall i :: 0 <= i < 32 ==> NfdMarks[i] == '\U{0000}' || IsCombiningMark(NfdMarks[i])
  {
  }

  /**
   * Canonical decomposition (NFD) of one character, for the Latin-1 lower-case
   * letters that carry a diacritic; every other character decomposes to itself.
   */
  function DecomposeChar(c: char): (r: string)
    ensures 1 <= |r| <= 2
    ensures !IsUpper(c) ==> NoUpper(r)
    ensures |r| == 1 ==> r[0] == c
    ensures |r| == 2 ==> '\U{00E0}' <= c <= '\U{00FF}' && !IsCombiningMark(r[0]) && IsCombiningMark(r[1])
  {
    NfdTables();
    if '\U{00E0}' <= c <= '\U{00FF}' && NfdMarks[c as int - 0xE0] != '\U{0000}' then
      [NfdBases[c as int - 0xE0], NfdMarks[c as int - 0xE0]]
    else [c]
  }

  /** `s.normalize("NFD")`, character by character. */
  function Decompose(s: string): (r: string)
    ensures NoUpper(s) ==> NoUpper(r)
    ensures |r| >= |s|
  {
    if s == [] then [] else DecomposeChar(s[0]) + Decompose(s[1..])
  }

  /** `s.replace(/[̀-ͯ]/g, "")`. */
  function StripMarks(s: string): (r: string)
    ensures NoMarks(r) && |r| <= |s|
    ensures NoUpper(s) ==> NoUpper(r)
    ensures NoMarks(s) ==> r == s
  {
    if s == [] then []
    else if IsCombiningMark(s[0]) then StripMarks(s[1..])
    else [s[0]] + StripMarks(s[1..])
  }

  /** `normalizeHeader`: lower-case, then trim, then decompose, then drop combining marks. */
  function NormalizeHeader(h: string): (r: string)
    ensures NoUpper(r) && NoMarks(r)
  {
    var t := Trim(ToLowerCase(h));
    TrimKeepsNoUpper(ToLowerCase(h));
    StripMarks(Decompose(t))
  }

  function NormalizeHeaders(row: seq<string>): (r: seq<string>)
    ensures |r| == |row|
    ensures forall i :: 0 <= i < |row| ==> r[i] == NormalizeHeader(row[i])
  {
    seq(|row|, i requires 0 <= i < |row| => NormalizeHeader(row[i]))
  }

  lemma {:induction false} DecomposeConcat(a: string, b: string)
    ensures Decompose(a + b) == Decompose(a) + Decompose(b)
  {
    if a != [] {
      assert (a + b)[1..] == a[1..] + b;
      DecomposeConcat(a[1..], b);
    } else {
      assert a + b == b;
    }
  }

  lemma {:induction false} StripMarksConcat(a: string, b: string)
    ensures StripMarks(a + b) == StripMarks(a) + StripMarks(b)
  {
    if a != [] {
      assert (a + b)[1..] == a[1..] + b;
      StripMarksConcat(a[1..], b);
    } else {
      assert a + b == b;
    }
  }

  /** Characters below U+00C0: decomposition leaves them alone. */
  predicate IsPlainChar(c: char) {
    c < '\U{00C0}'
  }

  lemma {:induction false} DecomposePlain(s: string)
    requires forall i :: 0 <= i < |s| ==> IsPlainChar(s[i])
    ensures Decompose(s) == s
  {
    if s != [] {
      DecomposePlain(s[1..]);
    }
  }

  /**
   * A header made of characters below U+00C0, not starting or ending with
   * whitespace, normalizes to its lower-case form.
   */
  lemma NormalizePlain(h: string)
    requires forall i :: 0 <= i < |h| ==> IsPlainChar(h[i])
    requires h == [] || (!IsJsWhitespace(h[0]) && !IsJsWhitespace(h[|h| - 1]))
    ensures NormalizeHeader(h) == ToLowerCase(h)
  {
    var l := ToLowerCase(h);
    LowerPlainString(h);
    LowerTrimmed(h);
    DecomposePlain(l);
    PlainUnstripped(l);
  }

  lemma LowerPlainString(h: string)
    requires forall i :: 0 <= i < |h| ==> IsPlainChar(h[i])
    ensures forall i :: 0 <= i < |ToLowerCase(h)| ==> IsPlainChar(ToLowerCase(h)[i])
  {
    var l := ToLowerCase(h);
    forall i | 0 <= i < |l| ensures IsPlainChar(l[i]) {
      LowerPlain(h[i]);
    }
  }

  lemma LowerTrimmed(h: string)
    requires h == [] || (!IsJsWhitespace(h[0]) && !IsJsWhitespace(h[|h| - 1]))
    ensures Trim(ToLowerCase(h)) == ToLowerCase(h)
  {
    var l := ToLowerCase(h);
    if l != [] {
      assert !IsJsWhitespace(l[0]) by { LowerKeepsNonSpace(h[0]); }
      assert !IsJsWhitespace(l[|l| - 1]) by { LowerKeepsNonSpace(h[|h| - 1]); }
      TrimCoreOf(l);
    }
  }

  lemma LowerPlain(c: char)
    requires IsPlainChar(c)
    ensures IsPlainChar(LowerChar(c))
  {
  }

  lemma LowerKeepsNonSpace(c: char)
    requires !IsJsWhitespace(c)
    ensures !IsJsWhitespace(LowerChar(c))
  {
  }

  lemma TrimCoreOf(s: string)
    requires s != [] && !IsJsWhitespace(s[0]) && !IsJsWhitespace(s[|s| - 1])
    ensures Trim(s) == s
  {
  }

  /** Header matching ignores letter case. */
  lemma NormalizeIgnoresCase(h: string)
    ensures NormalizeHeader(ToLowerCase(h)) == NormalizeHeader(h)
  {
    assert ToLowerCase(ToLowerCase(h)) == ToLowerCase(h);
  }

  /** Header matching ignores surrounding whitespace. */
  lemma NormalizeIgnoresPadding(w1: string, h: string, w2: string)
    requires AllWhitespace(w1) && AllWhitespace(w2)
    ensures NormalizeHeader(w1 + h + w2) == NormalizeHeader(h)
  {
    ToLowerCaseConcat(w1 + h, w2);
    ToLowerCaseConcat(w1, h);
    ToLowerCaseWhitespace(w1);
    ToLowerCaseWhitespace(w2);
    TrimPadded(w1, ToLowerCase(h), w2);
  }

  /** `"equipe"`, `" EQUIPE "` and `"Équipe"` all resolve to the header `"equipe"`. */
  lemma NormalizeEquipe()
    ensures NormalizeHeader("equipe") == "equipe"
  {
    ToLowerCaseOfLower("equipe");
    NormalizePlain("equipe");
  }

  lemma NormalizeEquipeUpper()
    ensures NormalizeHeader(" EQUIPE ") == "equipe"
  {
    calc {
      NormalizeHeader(" EQUIPE ");
      { assert " EQUIPE " == " " + "EQUIPE" + " "; }
      NormalizeHeader(" " + "EQUIPE" + " ");
      { NormalizeIgnoresPadding(" ", "EQUIPE", " "); }
      NormalizeHeader("EQUIPE");
      { NormalizePlain("EQUIPE"); }
      ToLowerCase("EQUIPE");
      "equipe";
    }
  }

  /** `"Équipe"`, written as its capital E-acute followed by `"quipe"`. */
  lemma NormalizeEquipeAccented(h: string)
    requires h == "\U{00C9}quipe"
    ensures NormalizeHeader(h) == "equipe"
  {
    var rest := h[1..];
    QuipeIsPlain(rest);
    assert h == [h[0]] + rest && h[0] == '\U{00C9}';
    DecomposeEAcute();
    NormalizeAccentedLead(h[0], rest);
  }

  lemma QuipeIsPlain(rest: string)
    requires rest == "quipe"
    ensures forall i :: 0 <= i < |rest| ==> IsPlainChar(rest[i]) && !IsUpper(rest[i])
    ensures rest != [] && !IsJsWhitespace(rest[|rest| - 1])
    ensures ['e'] + rest == "equipe"
  {
  }

  lemma DecomposeEAcute()
    ensures DecomposeChar(LowerChar('\U{00C9}')) == "e\U{0301}"
  {
    assert LowerChar('\U{00C9}') == '\U{00E9}';
    NfdTables();
  }

  /** The letter a character keeps once its accent is stripped: the base of its decomposition. */
  function BaseLetter(c: char): (r: char)
    ensures !IsCombiningMark(c) ==> !IsCombiningMark(r)
  {
    DecomposeChar(c)[0]
  }

  /** Each letter replaced by its base letter. */
  function Unaccented(s: string): (r: string)
    ensures |r| == |s|
    ensures forall i :: 0 <= i < |s| ==> r[i] == BaseLetter(s[i])
  {
    seq(|s|, i requires 0 <= i < |s| => BaseLetter(s[i]))
  }

  /**
   * Accents are ignored: a header with no whitespace at either end and no
   * combining mark normalizes to its lower-case form with every accented
   * letter replaced by its base letter.
   */
  lemma NormalizeIgnoresAccents(h: string)
    requires NoMarks(h)
    requires h == [] || (!IsJsWhitespace(h[0]) && !IsJsWhitespace(h[|h| - 1]))
    ensures NormalizeHeader(h) == Unaccented(ToLowerCase(h))
  {
    var l := ToLowerCase(h);
    LowerTrimmed(h);
    forall i | 0 <= i < |l| ensures !IsCombiningMark(l[i]) {
      assert !IsCombiningMark(h[i]);
    }
    StripDecomposed(l);
  }

  /** Decomposing, then stripping the marks, keeps the base letter of each character. */
  lemma {:induction false} StripDecomposed(s: string)
    requires NoMarks(s)
    ensures StripMarks(Decompose(s)) == Unaccented(s)
  {
    if s != [] {
      var t := s[1..];
      assert NoMarks(t) by {
        forall i | 0 <= i < |t| ensures !IsCombiningMark(t[i]) { assert t[i] == s[i + 1]; }
      }
      calc {
        StripMarks(Decompose(s));
        StripMarks(DecomposeChar(s[0]) + Decompose(t));
        { StripMarksConcat(DecomposeChar(s[0]), Decompose(t)); }
        StripMarks(DecomposeChar(s[0])) + StripMarks(Decompose(t));
        { StripDecomposedChar(s[0]); StripDecomposed(t); }
        [BaseLetter(s[0])] + Unaccented(t);
        { UnaccentedCons(s); }
        Unaccented(s);
      }
    }
  }

  lemma UnaccentedCons(s: string)
    requires s != []
    ensures Unaccented(s) == [BaseLetter(s[0])] + Unaccented(s[1..])
  {
    var r := [BaseLetter(s[0])] + Unaccented(s[1..]);
    forall i | 0 <= i < |s| ensures r[i] == Unaccented(s)[i] {
      if i > 0 {
        assert r[i] == Unaccented(s[1..])[i - 1] && s[1..][i - 1] == s[i];
      }
    }
  }

  lemma StripDecomposedChar(c: char)
    requires !IsCombiningMark(c)
    ensures StripMarks(DecomposeChar(c)) == [BaseLetter(c)]
  {
    var d := DecomposeChar(c);
    if |d| == 2 {
      assert d[1..][1..] == [];
    }
  }

  /**
   * A header whose first letter decomposes into a base letter and a combining
   * mark, followed by plain lower-case text, normalizes to the base letter and
   * that text.
   */
  lemma NormalizeAccentedLead(lead: char, rest: string)
    requires |DecomposeChar(LowerChar(lead))| == 2
    requires forall i :: 0 <= i < |rest| ==> IsPlainChar(rest[i]) && !IsUpper(rest[i])
    requires rest != [] && !IsJsWhitespace(rest[|rest| - 1])
    ensures NormalizeHeader([lead] + rest) == [DecomposeChar(LowerChar(lead))[0]] + rest
  {
    LowerLead(lead, rest);
    NormalizeLowered(LowerChar(lead), rest);
  }

  lemma LowerLead(lead: char, rest: string)
    requires forall i :: 0 <= i < |rest| ==> !IsUpper(rest[i])
    ensures ToLowerCase([lead] + rest) == [LowerChar(lead)] + rest
  {
    ToLowerCaseConcat([lead], rest);
    ToLowerCaseOfLower(rest);
  }

  lemma NormalizeLowered(c: char, rest: string)
    requires |DecomposeChar(c)| == 2
    requires forall i :: 0 <= i < |rest| ==> IsPlainChar(rest[i])
    requires rest != [] && !IsJsWhitespace(rest[|rest| - 1])
    ensures StripMarks(Decompose(Trim([c] + rest))) == [DecomposeChar(c)[0]] + rest
  {
    var l := [c] + rest;
    DecomposableNotSpace(c);
    assert l[|l| - 1] == rest[|rest| - 1];
    TrimCoreOf(l);
    DecomposeLead(c, rest);
    StripLeadMark(DecomposeChar(c), rest);
  }

  lemma DecomposableNotSpace(c: char)
    requires |DecomposeChar(c)| == 2
    ensures !IsJsWhitespace(c)
  {
  }

  lemma DecomposeLead(c: char, rest: string)
    requires forall i :: 0 <= i < |rest| ==> IsPlainChar(rest[i])
    ensures Decompose([c] + rest) == DecomposeChar(c) + rest
  {
    DecomposeConcat([c], rest);
    DecomposePlain(rest);
    assert [c][1..] == [];
  }

  lemma StripLeadMark(d: string, rest: string)
    requires |d| == 2 && !IsCombiningMark(d[0]) && IsCombiningMark(d[1])
    requires forall i :: 0 <= i < |rest| ==> IsPlainChar(rest[i])
    ensures StripMarks(d + rest) == [d[0]] + rest
  {
    StripMarksConcat(d, rest);
    assert NoMarks(rest);
    assert d[1..][1..] == [];
  }

  /**
   * Trimming happens before the marks are dropped: whitespace hidden behind a
   * trailing combining mark survives normalization.
   */
  lemma TrimBeforeStrip()
    ensures NormalizeHeader("but " + ['\U{0301}']) == "but "
  {
    var w := "but ";
    assert forall i :: 0 <= i < |w| ==> IsPlainChar(w[i]) && !IsUpper(w[i]);
    MarkShieldsTrailingSpace(w, '\U{0301}');
  }

  /** A combining mark at the end keeps `trim` from reaching the whitespace before it. */
  lemma MarkShieldsTrailingSpace(w: string, m: char)
    requires forall i :: 0 <= i < |w| ==> IsPlainChar(w[i]) && !IsUpper(w[i])
    requires w != [] && !IsJsWhitespace(w[0]) && IsCombiningMark(m)
    ensures NormalizeHeader(w + [m]) == w
  {
    var l := w + [m];
    assert ToLowerCase(l) == l by {
      assert NoUpper(l);
      ToLowerCaseOfLower(l);
    }
    assert l[0] == w[0] && l[|l| - 1] == m;
    TrimCoreOf(l);
    DecomposePlain(w);
    PlainUnstripped(w);
    StripTrailingMark(w, m);
  }

  lemma StripTrailingMark(w: string, m: char)
    requires Decompose(w) == w && StripMarks(w) == w
    requires IsCombiningMark(m)
    ensures StripMarks(Decompose(w + [m])) == w
  {
    DecomposeAppendSingle(w, m);
    StripAppendMark(w, m);
  }

  lemma PlainUnstripped(w: string)
    requires forall i :: 0 <= i < |w| ==> IsPlainChar(w[i])
    ensures StripMarks(w) == w
  {
    assert NoMarks(w);
  }

  lemma DecomposeAppendSingle(w: string, c: char)
    requires c < '\U{00E0}' || '\U{00FF}' < c
    ensures Decompose(w + [c]) == Decompose(w) + [c]
  {
    DecomposeConcat(w, [c]);
    DecomposeSingle(c);
  }

  lemma StripAppendMark(w: string, m: char)
    requires IsCombiningMark(m)
    ensures StripMarks(w + [m]) == StripMarks(w)
  {
    StripMarksConcat(w, [m]);
    StripSingleMark(m);
    assert StripMarks(w) + [] == StripMarks(w);
  }

  lemma DecomposeSingle(c: char)
    requires c < '\U{00E0}' || '\U{00FF}' < c
    ensures Decompose([c]) == [c]
  {
    assert [c][1..] == [];
  }

  lemma StripSingleMark(m: char)
    requires IsCombiningMark(m)
    ensures StripMarks([m]) == []
  {
    assert [m][1..] == [];
  }

  /** Plain lower-case text without whitespace at its ends is already normalized. */
  lemma NormalizeLowerPlain(h: string)
    requires forall i :: 0 <= i < |h| ==> IsPlainChar(h[i]) && !IsUpper(h[i])
    requires h == [] || (!IsJsWhitespace(h[0]) && !IsJsWhitespace(h[|h| - 1]))
    ensures NormalizeHeader(h) == h
  {
    NormalizePlain(h);
  }

  // ---------------------------------------------------------------------------
  // findColumn

  /** `xs.indexOf(x)`: the lowest index holding `x`, or -1. */
  function IndexOf(xs: seq<string>, x: string): (r: int)
    ensures -1 <= r < |xs|
    ensures r == -1 <==> x !in xs
    ensures r >= 0 ==> xs[r] == x && x !in xs[..r]
  {
    if xs == [] then -1
    else if xs[0] == x then 0
    else
      var k := IndexOf(xs[1..], x);
      assert k >= 0 ==> xs[..k + 1] == [xs[0]] + xs[1..][..k];
      if k == -1 then -1 else k + 1
  }

  /** None of the first `k` synonyms, once normalized, is among the headers. */
  predicate NoneFound(headers: seq<string>, names: seq<string>, k: int)
    requires 0 <= k <= |names|
  {
    forall j :: 0 <= j < k ==> NormalizeHeader(names[j]) !in headers
  }

  /** Column `r` is the first occurrence of synonym `k`, and every earlier synonym is absent. */
  predicate ResolvedBy(headers: seq<string>, names: seq<string>, k: int, r: int)
    requires 0 <= k < |names| && 0 <= r < |headers|
  {
    NoneFound(headers, names, k)
    && headers[r] == NormalizeHeader(names[k])
    && headers[r] !in headers[..r]
  }

  /**
   * `findColumn(headers, ...names)`: -1 when no synonym occurs; otherwise the
   * first column holding the earliest synonym, in argument order, that occurs.
   */
  function FindColumn(headers: seq<string>, names: seq<string>): (r: int)
    ensures -1 <= r < |headers|
    ensures r == -1 <==> NoneFound(headers, names, |names|)
  {
    if names == [] then -1
    else
      var idx := IndexOf(headers, NormalizeHeader(names[0]));
      NoneFoundTail(headers, names);
      if idx != -1 then idx else FindColumn(headers, names[1..])
  }

  /** No synonym is found exactly when the first is absent and none of the others is found. */
  lemma NoneFoundTail(headers: seq<string>, names: seq<string>)
    requires names != []
    ensures NoneFound(headers, names, |names|)
      <==> NormalizeHeader(names[0]) !in headers && NoneFound(headers, names[1..], |names| - 1)
  {
    assert forall j :: 1 <= j < |names| ==> names[j] == names[1..][j - 1];
  }

  /** A found column holds the earliest synonym that occurs, at its first occurrence. */
  lemma {:induction false} FindColumnResolves(headers: seq<string>, names: seq<string>)
    requires FindColumn(headers, names) >= 0
    ensures exists k :: 0 <= k < |names| && ResolvedBy(headers, names, k, FindColumn(headers, names))
  {
    var r := FindColumn(headers, names);
    if IndexOf(headers, NormalizeHeader(names[0])) != -1 {
      assert headers[r] == NormalizeHeader(names[0]) && headers[r] !in headers[..r];
      assert ResolvedBy(headers, names, 0, r);
    } else {
      var tail := names[1..];
      assert r == FindColumn(headers, tail);
      FindColumnResolves(headers, tail);
      var k :| 0 <= k < |tail| && ResolvedBy(headers, tail, k, r);
      assert NoneFound(headers, names, k + 1) by {
        forall j | 0 <= j < k + 1 ensures NormalizeHeader(names[j]) !in headers {
          if j > 0 {
            assert names[j] == tail[j - 1];
          }
        }
      }
      assert names[k + 1] == tail[k];
      assert ResolvedBy(headers, names, k + 1, r);
    }
  }

  /** An earlier synonym that occurs anywhere in the row beats every later one. */
  lemma EarlierSynonymWins(headers: seq<string>, names: seq<string>, j: nat)
    requires j < |names| && NormalizeHeader(names[j]) in headers
    ensures 0 <= FindColumn(headers, names) < |headers|
    ensures exists k :: 0 <= k <= j && headers[FindColumn(headers, names)] == NormalizeHeader(names[k])
  {
    FindColumnResolves(headers, names);
  }

  // ---------------------------------------------------------------------------
  // Column maps

  /** Column of each logical field of the events grid, -1 when absent. */
  datatype EventColumns = EventColumns(
    date: int, matchLabel: int, scorer: int, assist1: int,
    assist2: int, period: int, time: int, team: int)

  /** Column of each logical field of the calendar grid, -1 when absent. */
  datatype CalendarColumns = CalendarColumns(
    date: int, time: int, awayTeam: int, homeTeam: int, matchFull: int)

  const DateNames: seq<string> := ["date"]
  const MatchNames: seq<string> := ["match"]
  const ScorerNames: seq<string> := ["scorer", "buteur", "goal", "but"]
  const Assist1Names: seq<string> := ["assist1", "passeur1", "passeur", "assist", "passe1"]
  const Assist2Names: seq<string> := ["assist2", "passeur2", "passe2"]
  const PeriodNames: seq<string> := ["period", "periode"]
  const TimeNames: seq<string> := ["time", "temps", "heure"]
  const TeamNames: seq<string> := ["team", "equipe", "\U{00E9}quipe"]

  const CalendarTimeNames: seq<string> := ["heure (gmt)", "heure", "time", "temps"]
  const AwayNames: seq<string> := ["visiteur (abr.)", "visiteur", "away", "awayteam", "away_team"]
  const HomeNames: seq<string> := ["receveur (abr.)", "receveur", "home", "hometeam", "home_team"]
  const MatchFullNames: seq<string> := ["match complet", "match", "matchup"]

  predicate ColumnIn(c: int, width: int) {
    c == -1 || 0 <= c < width
  }

  /** The events column map (`colIndex`), resolved once per grid from its normalized header row. */
  function EventColumnMap(headers: seq<string>): (c: EventColumns)
    ensures ColumnIn(c.date, |headers|) && ColumnIn(c.matchLabel, |headers|)
    ensures ColumnIn(c.scorer, |headers|) && ColumnIn(c.assist1, |headers|)
    ensures ColumnIn(c.assist2, |headers|) && ColumnIn(c.period, |headers|)
    ensures ColumnIn(c.time, |headers|) && ColumnIn(c.team, |headers|)
  {
    EventColumns(
      FindColumn(headers, DateNames), FindColumn(headers, MatchNames),
      FindColumn(headers, ScorerNames), FindColumn(headers, Assist1Names),
      FindColumn(headers, Assist2Names), FindColumn(headers, PeriodNames),
      FindColumn(headers, TimeNames), FindColumn(headers, TeamNames))
  }

  /** The calendar column map (`calColIndex`). */
  function CalendarColumnMap(headers: seq<string>): (c: CalendarColumns)
    ensures ColumnIn(c.date, |headers|) && ColumnIn(c.time, |headers|)
    ensures ColumnIn(c.awayTeam, |headers|) && ColumnIn(c.homeTeam, |headers|)
    ensures ColumnIn(c.matchFull, |headers|)
  {
    CalendarColumns(
      FindColumn(headers, DateNames), FindColumn(headers, CalendarTimeNames),
      FindColumn(headers, AwayNames), FindColumn(headers, HomeNames),
      FindColumn(headers, MatchFullNames))
  }
}
