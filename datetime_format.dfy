/**
 * The date/time token translator: a date/time format such as `%Y-%m-%d` becomes a
 * regular-expression text by replacing each `%`-token of a fixed, ordered table
 * with its sub-pattern, one table row after another. Characters that are not part
 * of a token are copied as they are (they are not escaped).
 */
module DatetimeFormat {
  import opened Strings

  /** The sub-pattern of `%B`, written as a concatenation of one word each. */
  const MonthNames: string :=
    "[" + "January|" + "February|" + "March|" + "April|" + "May|" + "June|" + "July|" +
    "August|" + "September|" + "October|" + "November|" + "December" + "]"

  /** The sub-pattern of `%b`. */
  const MonthAbbreviations: string :=
    "[" + "Jan|" + "Feb|" + "Mar|" + "Apr|" + "May|" + "Jun|" + "Jul|" +
    "Aug|" + "Sep|" + "Oct|" + "Nov|" + "Dec" + "]"

  /** The tokens (without their `%`) and their sub-patterns, in the order they are applied. */
  const Table: seq<(string, string)> := [
    ("Y", "[0-9]{4}"),
    ("y", "[0-9]{2}"),
    ("-y", "[0-9]{1,2}"),
    ("m", "[0-9]{2}"),
    ("-m", "[0-9]{1,2}"),
    ("B", MonthNames),
    ("b", MonthAbbreviations),
    ("d", "[0-9]{2}"),
    ("-d", "[0-9]{1,2}"),
    ("H", "[0-9]{1,2}"),
    ("I", "[0-9]{2}"),
    ("-I", "[0-9]{1,2}"),
    ("M", "[0-9]{2}"),
    ("-M", "[0-9]{1,2}"),
    ("S", "[0-9]{2}"),
    ("-S", "[0-9]{1,2}"),
    ("f", "[0-9]{6}"),
    ("p", "[AM|PM]"),
    ("z", "[+|-][0-9]{4}")
  ]

  /** The text a row replaces: `%` followed by the row's token. */
  function Token(k: nat): string
    requires k < |Table|
  {
    "%" + Table[k].0
  }

  /** The rows from `k` on applied to `s`, each with `str.replace`. */
  function ApplyRows(s: string, k: nat): string
    requires k <= |Table|
    decreases |Table| - k
  {
    if k == |Table| then s else ApplyRows(Replace(s, Token(k), Table[k].1), k + 1)
  }

  /** The regular expression for a date/time format: every row applied in order. */
  function DatetimeRegex(format: string): string
  {
    ApplyRows(format, 0)
  }

  /** The translator as the source runs it: one replacement per row, in table order. */
  method GetRegexForDatetimeFormat(format: string) returns (regex: string)
    ensures regex == DatetimeRegex(format)
  {
    regex := format;
    var i := 0;
    while i < |Table|
      invariant 0 <= i <= |Table|
      invariant ApplyRows(regex, i) == DatetimeRegex(format)
    {
      regex := Replace(regex, Token(i), Table[i].1);
      i := i + 1;
    }
  }

  /**
   * What makes the table safe to apply in sequence: no token contains `%` or `[`,
   * and every sub-pattern is non-empty, starts with `[` and contains neither `%`
   * nor a backslash.
   */
  predicate RowIsSafe(token: string, pattern: string)
  {
    |token| > 0 && '%' !in token && '[' !in token &&
    |pattern| > 0 && pattern[0] == '[' && '%' !in pattern && '\\' !in pattern
  }

  lemma RowIsSafeAt(k: nat)
    requires k < |Table|
    ensures RowIsSafe(Table[k].0, Table[k].1)
  {
    if k == 5 {
      MonthNamesRowIsSafe();
    } else if k == 6 {
      MonthAbbreviationsRowIsSafe();
    } else if k < 5 {
      assert k == 0 || k == 1 || k == 2 || k == 3 || k == 4;
    } else if k < 12 {
      assert k == 7 || k == 8 || k == 9 || k == 10 || k == 11;
    } else {
      LaterRowsAreSafe(k);
    }
  }

  lemma MonthNamesRowIsSafe()
    ensures RowIsSafe(Table[5].0, Table[5].1)
  {
    MonthNamesAreSafe();
  }

  lemma MonthNamesAreSafe()
    ensures RowIsSafe("B", MonthNames)
  {
    MonthNamesLackChar('%');
    MonthNamesLackChar('\\');
  }

  lemma MonthNamesLackChar(c: char)
    requires c == '%' || c == '\\'
    ensures c !in MonthNames
  {
  }

  lemma MonthAbbreviationsRowIsSafe()
    ensures RowIsSafe(Table[6].0, Table[6].1)
  {
    MonthAbbreviationsAreSafe();
  }

  lemma MonthAbbreviationsAreSafe()
    ensures RowIsSafe("b", MonthAbbreviations)
  {
  }

  lemma LaterRowsAreSafe(k: nat)
    requires 12 <= k < |Table|
    ensures RowIsSafe(Table[k].0, Table[k].1)
  {
    assert k == 12 || k == 13 || k == 14 || k == 15 || k == 16 || k == 17 || k == 18;
  }

  lemma TableIsSafe()
    ensures forall k | 0 <= k < |Table| :: RowIsSafe(Table[k].0, Table[k].1)
  {
    forall k | 0 <= k < |Table| ensures RowIsSafe(Table[k].0, Table[k].1) {
      RowIsSafeAt(k);
    }
  }

  /** Once a row has run, its token never reappears: later rows cannot revive it. */
  lemma {:induction false} RowsLeaveNoToken(s: string, k: nat)
    requires k <= |Table|
    requires forall j | 0 <= j < k :: !Occurs(s, Token(j))
    ensures forall j | 0 <= j < |Table| :: !Occurs(ApplyRows(s, k), Token(j))
    decreases |Table| - k
  {
    if k < |Table| {
      var s' := Replace(s, Token(k), Table[k].1);
      forall j | 0 <= j <= k
        ensures !Occurs(s', Token(j))
      {
        RowLeavesNoToken(s, k, j);
      }
      RowsLeaveNoToken(s', k + 1);
    }
  }

  /** Row `k` removes its own token and creates no token of any row. */
  lemma RowLeavesNoToken(s: string, k: nat, j: nat)
    requires j <= k < |Table|
    requires j == k || !Occurs(s, Token(j))
    ensures !Occurs(Replace(s, Token(k), Table[k].1), Token(j))
  {
    RowIsSafeAt(j);
    RowIsSafeAt(k);
    var q, pattern := Token(j), Table[k].1;
    assert forall i | 1 <= i < |q| :: q[i] == Table[j].0[i - 1];
    ReplaceLeavesNoOccurrence(s, Token(k), pattern, q);
  }

  /** No `%`-token of the table survives translation. */
  lemma NoTokenSurvives(format: string)
    ensures forall k | 0 <= k < |Table| :: !Occurs(DatetimeRegex(format), "%" + Table[k].0)
  {
    RowsLeaveNoToken(format, 0);
    forall k | 0 <= k < |Table| ensures Token(k) == "%" + Table[k].0 { }
  }

  /** A text no row's token occurs in is left as it is by the rows from `k` on. */
  lemma {:induction false} RowsKeepTokenFreeText(s: string, k: nat)
    requires k <= |Table|
    requires forall j | k <= j < |Table| :: !Occurs(s, Token(j))
    ensures ApplyRows(s, k) == s
    decreases |Table| - k
  {
    if k < |Table| {
      ReplaceAbsent(s, Token(k), Table[k].1);
      RowsKeepTokenFreeText(s, k + 1);
    }
  }

  /** A format without `%` is returned unchanged. */
  lemma NoPercentUnchanged(format: string)
    requires '%' !in format
    ensures DatetimeRegex(format) == format
  {
    forall j | 0 <= j < |Table|
      ensures !Occurs(format, Token(j))
    {
      FirstCharAbsent(format, Token(j));
    }
    RowsKeepTokenFreeText(format, 0);
  }

  /** Translation adds no character that is in neither the format nor a sub-pattern. */
  lemma {:induction false} RowsAddNoChar(s: string, k: nat, c: char)
    requires k <= |Table|
    requires c !in s && forall j | 0 <= j < |Table| :: c !in Table[j].1
    ensures c !in ApplyRows(s, k)
    decreases |Table| - k
  {
    if k < |Table| {
      ReplaceAddsNoChar(s, Token(k), Table[k].1, c);
      RowsAddNoChar(Replace(s, Token(k), Table[k].1), k + 1, c);
    }
  }

  /** No sub-pattern holds a backslash, so translating a format without one gives none. */
  lemma NoBackslashIntroduced(format: string)
    requires '\\' !in format
    ensures '\\' !in DatetimeRegex(format)
  {
    TableIsSafe();
    RowsAddNoChar(format, 0, '\\');
  }

  /**
   * The tokens form a prefix-free code: each is a single character other than `-`
   * and `%`, or `-` followed by such a character, and no two rows share a token.
   */
  predicate TokenShape(t: string)
  {
    (|t| == 1 && t[0] != '-' && t[0] != '%') ||
    (|t| == 2 && t[0] == '-' && t[1] != '-' && t[1] != '%')
  }

  lemma TokensArePrefixFree()
    ensures forall k | 0 <= k < |Table| :: TokenShape(Table[k].0)
    ensures forall j, k | 0 <= j < k < |Table| :: Table[j].0 != Table[k].0
  {
  }

  /** Another row's token never matches at the start of a text that starts with `Token(k)`. */
  lemma OtherTokenNotAtStart(j: nat, k: nat, y: string)
    requires j < |Table| && k < |Table| && j != k
    ensures !(|Token(j)| <= |Token(k) + y| && (Token(k) + y)[..|Token(j)|] == Token(j))
  {
    TokensArePrefixFree();
    var s := Token(k) + y;
    assert s[..|Token(k)|] == Token(k);
    assert Table[j].0 == Token(j)[1..] && Table[k].0 == Token(k)[1..];
  }

  /**
   * A word made of `%` and then characters other than `%` is copied by a replacement
   * whose pattern starts with `%` and does not match at the word's start.
   */
  lemma CopyLeadingWord(t: string, y: string, pat: string, rep: string)
    requires 1 <= |t| <= 2 && '%' !in t
    requires pat != [] && pat[0] == '%'
    requires !(|pat| <= |"%" + t + y| && ("%" + t + y)[..|pat|] == pat)
    ensures Replace("%" + t + y, pat, rep) == "%" + t + Replace(y, pat, rep)
  {
    var s := "%" + t + y;
    assert s[1..] == t + y;
    if |s| < |pat| {
      ReplaceShort(s, pat, rep);
      ReplaceShort(y, pat, rep);
    } else {
      assert Replace(s, pat, rep) == "%" + Replace(t + y, pat, rep);
      if |t| == 1 {
        assert t + y == [t[0]] + y;
        ReplaceSkipsChar(t[0], y, pat, rep);
      } else {
        assert t + y == [t[0]] + ([t[1]] + y);
        ReplaceSkipsChar(t[0], [t[1]] + y, pat, rep);
        ReplaceSkipsChar(t[1], y, pat, rep);
        assert [t[0]] + ([t[1]] + Replace(y, pat, rep)) == t + Replace(y, pat, rep);
      }
    }
  }

  /** A row whose token is not `Token(k)` copies a leading `Token(k)` unchanged. */
  lemma OtherRowCopiesToken(j: nat, k: nat, y: string)
    requires j < |Table| && k < |Table| && j != k
    ensures Replace(Token(k) + y, Token(j), Table[j].1) == Token(k) + Replace(y, Token(j), Table[j].1)
  {
    TokensArePrefixFree();
    OtherTokenNotAtStart(j, k, y);
    CopyLeadingWord(Table[k].0, y, Token(j), Table[j].1);
  }

  /** A leading text without `%` (a sub-pattern, for one) is copied by every row. */
  lemma {:induction false} RowsCopyPercentFree(p: string, y: string, i: nat)
    requires '%' !in p && i <= |Table|
    ensures ApplyRows(p + y, i) == p + ApplyRows(y, i)
    decreases |Table| - i
  {
    if i < |Table| {
      ReplaceSkipsText(p, y, Token(i), Table[i].1);
      RowsCopyPercentFree(p, Replace(y, Token(i), Table[i].1), i + 1);
    }
  }

  /** The rows from `i` on turn a leading `Token(k)` (with `i <= k`) into its sub-pattern. */
  lemma {:induction false} RowsReplaceToken(k: nat, y: string, i: nat)
    requires i <= k < |Table|
    ensures ApplyRows(Token(k) + y, i) == Table[k].1 + ApplyRows(y, i)
    decreases k - i
  {
    if i == k {
      RowIsSafeAt(k);
      ReplaceAtStart(Token(k), y, Table[k].1);
      RowsCopyPercentFree(Table[k].1, Replace(y, Token(k), Table[k].1), k + 1);
    } else {
      OtherRowCopiesToken(i, k, y);
      RowsReplaceToken(k, Replace(y, Token(i), Table[i].1), i + 1);
    }
  }

  /** A format that starts with a table token translates to that token's sub-pattern, then the rest. */
  lemma TranslateToken(k: nat, rest: string)
    requires k < |Table|
    ensures DatetimeRegex("%" + Table[k].0 + rest) == Table[k].1 + DatetimeRegex(rest)
  {
    assert "%" + Table[k].0 + rest == Token(k) + rest;
    RowsReplaceToken(k, rest, 0);
  }

  /** A format that starts with a character other than `%` keeps it, then translates the rest. */
  lemma TranslateLiteralChar(c: char, rest: string)
    requires c != '%'
    ensures DatetimeRegex([c] + rest) == [c] + DatetimeRegex(rest)
  {
    RowsCopyPercentFree([c], rest, 0);
  }

  lemma TranslateEmpty()
    ensures DatetimeRegex("") == ""
  {
    RowsKeepTokenFreeText("", 0);
  }

  /** A format read as a sequence of table tokens and literal characters other than `%`. */
  datatype Piece = Tok(row: nat) | Lit(c: char)

  predicate WellFormedPieces(ps: seq<Piece>)
  {
    forall i | 0 <= i < |ps| :: (ps[i].Tok? && ps[i].row < |Table|) || (ps[i].Lit? && ps[i].c != '%')
  }

  /** The format text the pieces spell. */
  function Spell(ps: seq<Piece>): string
    requires WellFormedPieces(ps)
  {
    if ps == [] then ""
    else (match ps[0] case Tok(k) => "%" + Table[k].0 case Lit(c) => [c]) + Spell(ps[1..])
  }

  /** Each token replaced by its sub-pattern, each literal character kept. */
  function Translation(ps: seq<Piece>): string
    requires WellFormedPieces(ps)
  {
    if ps == [] then ""
    else (match ps[0] case Tok(k) => Table[k].1 case Lit(c) => [c]) + Translation(ps[1..])
  }

  /** The translator works piece by piece, left to right. */
  lemma {:induction false} TranslatePieces(ps: seq<Piece>)
    requires WellFormedPieces(ps)
    ensures DatetimeRegex(Spell(ps)) == Translation(ps)
  {
    if ps == [] {
      TranslateEmpty();
    } else {
      TranslatePieces(ps[1..]);
      match ps[0]
      case Tok(k) =>
        TranslateToken(k, Spell(ps[1..]));
      case Lit(c) =>
        TranslateLiteralChar(c, Spell(ps[1..]));
    }
  }

  /** The translation of `%-d`, the day without zero padding. */
  lemma DayWithoutPadding()
    ensures DatetimeRegex("%-d") == "[0-9]{1,2}"
  {
    TranslateEmpty();
    TranslateToken(8, "");
    assert "%-d" == "%" + Table[8].0 + "";
  }
}
