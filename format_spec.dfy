/**
 * The format-spec dispatcher: the text after the `:` of a placeholder chooses a
 * sub-pattern for the compiled regular expression and a decoder for the matched
 * text. The rules are tried in a fixed order and the first that accepts wins; a
 * spec that no rule accepts raises `NotImplementedError`.
 *
 * The `re.match` tests of the rules are written out as predicates on the spec.
 * All but one anchor only at the start of the spec, so they are prefix tests.
 */
module FormatSpec {
  import opened Wrappers
  import opened Strings
  import opened Numbers
  import opened DatetimeFormat

  /**
   * The Python exceptions the compiler, the decoders and the parser raise
   * (`KeyError`: a matched group that has no decoder).
   */
  datatype Exception = NotImplementedError | ValueError | KeyError

  /** The decoders, one per distinct lambda of the dispatcher. */
  datatype Decoder =
    | StripText                // x.strip()
    | DeleteFill(fill: char)   // x.replace(fill, "")
    | IntDropCommas            // int(x.replace(",", ""))
    | IntDropSeparators        // int(x.replace(",", "").replace(".", ""))
    | IntStripDropSeparators   // int(x.strip().replace(",", "").replace(".", ""))
    | FloatOfText              // float(x)
    | FloatOfStripped          // float(x.strip())
    | FloatDropCommas          // float(x.replace(",", ""))
    | Strptime(format: string) // datetime.strptime(x, format)

  /**
   * A decoded value. A float is kept as the text handed to `float()`, a date/time
   * as the text and the format handed to `strptime`.
   */
  datatype Value =
    | Text(text: string)
    | Integer(n: int)
    | FloatOf(floatText: string)
    | DatetimeOf(datetimeText: string, datetimeFormat: string)

  /** What the dispatcher returns for an accepted spec. */
  datatype Entry = Entry(pattern: string, decoder: Decoder)

  // ------------------------------------------------------------ rule tests

  /** The length of the run of ASCII digits at the start of `s` (what `[0-9]+` takes). */
  function LeadingDigits(s: string): (n: nat)
    ensures n <= |s| && AllDigits(s[..n])
    ensures n == |s| || !IsDigit(s[n])
    decreases |s|
  {
    if s != [] && IsDigit(s[0]) then
      var n := 1 + LeadingDigits(s[1..]);
      assert s[..n] == [s[0]] + s[1..][..n - 1];
      n
    else 0
  }

  /** `re.match(r"[<^>][0-9]+", f)`: an alignment character, then a digit. */
  predicate AlignWidthPrefix(f: string)
  {
    |f| >= 2 && f[0] in "<^>" && IsDigit(f[1])
  }

  /** `re.match(".[<^>][0-9]+", f)`: any character but a newline, an alignment character, a digit. */
  predicate FillAlignWidthPrefix(f: string)
  {
    |f| >= 3 && f[0] != '\n' && f[1] in "<^>" && IsDigit(f[2])
  }

  /** `f in "dn"`: `f` is a substring of `dn`, the empty spec included. */
  predicate InDn(f: string)
  {
    Occurs("dn", f)
  }

  /**
   * `re.match("^[0-9]+[d|n]$", f)`: digits, then one of `d`, `|`, `n`, then the end,
   * where `$` also matches in front of one trailing newline.
   */
  predicate WidthIntegerSpec(f: string)
  {
    var g := if |f| > 0 && f[|f| - 1] == '\n' then f[..|f| - 1] else f;
    |g| >= 2 && AllDigits(g[..|g| - 1]) && g[|g| - 1] in "d|n"
  }

  /** `re.match("[0-9]+f", f)`: digits, then `f`. */
  predicate WidthFloatPrefix(f: string)
  {
    var n := LeadingDigits(f);
    n >= 1 && n < |f| && f[n] == 'f'
  }

  /** `re.match(r"\.\d+f", f)`: `.`, digits, then `f`. */
  predicate PrecisionFloatPrefix(f: string)
  {
    |f| >= 1 && f[0] == '.' && var n := LeadingDigits(f[1..]); n >= 1 && 1 + n < |f| && f[1 + n] == 'f'
  }

  /** `re.match(r",\.[0-9]+f", f)`: `,.`, digits, then `f`. */
  predicate GroupedPrecisionFloatPrefix(f: string)
  {
    |f| >= 2 && f[0] == ',' && f[1] == '.' &&
    var n := LeadingDigits(f[2..]); n >= 1 && 2 + n < |f| && f[2 + n] == 'f'
  }

  /** `"%Y" in f`. */
  predicate HasYearToken(f: string)
  {
    Occurs(f, "%Y")
  }

  // ------------------------------------------------------------ sub-patterns

  /** `([\s|\d]{w})`: exactly `w` characters, each whitespace, `|` or a digit. */
  function WidthPattern(w: string): string
  {
    "([\\s|\\d]{" + w + "})"
  }

  /** `.{w}`: exactly `w` characters other than a newline. */
  function FillPattern(w: string): string
  {
    ".{" + w + "}"
  }

  const GroupedIntPattern: string := "-?[0-9|,]+"
  const DecimalPattern: string := "-?[0-9|\\.]+"
  const WidthDecimalPattern: string := "\\s*-?[0-9|\\.|,]+"

  /** `-?[0-9]*\.[0-9]{N}`: a fixed number of digits after the point. */
  function PrecisionPattern(n: string): string
  {
    "-?[0-9]*\\.[0-9]{" + n + "}"
  }

  /** `-?[0-9|,]*\.[0-9]{N}`: grouped digits, then a fixed number after the point. */
  function GroupedPrecisionPattern(n: string): string
  {
    "-?[0-9|,]*\\.[0-9]{" + n + "}"
  }

  /** The quantifier text of the `,.Nf` rule as written: everything but the first and last character. */
  function GroupedPrecisionCountAsWritten(f: string): string
    requires |f| >= 2
  {
    f[1..|f| - 1]
  }

  /** The quantifier text of the `,.Nf` rule as intended: the digits between `,.` and `f`. */
  function GroupedPrecisionCount(f: string): string
    requires |f| >= 3
  {
    f[2..|f| - 1]
  }

  // ------------------------------------------------------------ dispatcher

  /**
   * `get_entry_regex_pattern_and_parser`: the first rule that accepts the spec
   * gives the sub-pattern and the decoder. The `,.Nf` rule takes its quantifier
   * text as written, `.N` (see `IntendedEntryPatternAndDecoder` for the intended `N`).
   */
  function EntryPatternAndDecoder(f: string): (r: Result<Entry, Exception>)
    ensures r.Err? ==> r.error == NotImplementedError
  {
    if IsDigitString(f) then Ok(Entry(WidthPattern(f), StripText))
    else if f == "," then Ok(Entry(GroupedIntPattern, IntDropCommas))
    else if AlignWidthPrefix(f) then Ok(Entry(WidthPattern(f[1..]), StripText))
    else if FillAlignWidthPrefix(f) then Ok(Entry(FillPattern(f[2..]), DeleteFill(f[0])))
    else if InDn(f) then Ok(Entry(DecimalPattern, IntDropSeparators))
    else if WidthIntegerSpec(f) then Ok(Entry(WidthDecimalPattern, IntStripDropSeparators))
    else if f == "f" then Ok(Entry(DecimalPattern, FloatOfText))
    else if WidthFloatPrefix(f) then Ok(Entry(DecimalPattern, FloatOfStripped))
    else if PrecisionFloatPrefix(f) then Ok(Entry(PrecisionPattern(f[1..|f| - 1]), FloatOfText))
    else if GroupedPrecisionFloatPrefix(f) then Ok(Entry(GroupedPrecisionPattern(GroupedPrecisionCountAsWritten(f)), FloatDropCommas))
    else if HasYearToken(f) then Ok(Entry(DatetimeRegex(f), Strptime(f)))
    else Err(NotImplementedError)
  }

  // ------------------------------------------------------------ the rules as a list

  /** The rules, named after what they accept, in the order the source tries them. */
  datatype Rule =
    | Width | Grouped | AlignWidth | FillAlignWidth | Decimal | WidthDecimal
    | PlainFloat | WidthFloat | PrecisionFloat | GroupedPrecisionFloat | Datetime

  const Rules: seq<Rule> := [
    Width, Grouped, AlignWidth, FillAlignWidth, Decimal, WidthDecimal,
    PlainFloat, WidthFloat, PrecisionFloat, GroupedPrecisionFloat, Datetime
  ]

  predicate Accepts(r: Rule, f: string)
  {
    match r
    case Width => IsDigitString(f)
    case Grouped => f == ","
    case AlignWidth => AlignWidthPrefix(f)
    case FillAlignWidth => FillAlignWidthPrefix(f)
    case Decimal => InDn(f)
    case WidthDecimal => WidthIntegerSpec(f)
    case PlainFloat => f == "f"
    case WidthFloat => WidthFloatPrefix(f)
    case PrecisionFloat => PrecisionFloatPrefix(f)
    case GroupedPrecisionFloat => GroupedPrecisionFloatPrefix(f)
    case Datetime => HasYearToken(f)
  }

  /** What a rule builds from a spec it accepts. */
  function Build(r: Rule, f: string): Entry
    requires Accepts(r, f)
  {
    match r
    case Width => Entry(WidthPattern(f), StripText)
    case Grouped => Entry(GroupedIntPattern, IntDropCommas)
    case AlignWidth => Entry(WidthPattern(f[1..]), StripText)
    case FillAlignWidth => Entry(FillPattern(f[2..]), DeleteFill(f[0]))
    case Decimal => Entry(DecimalPattern, IntDropSeparators)
    case WidthDecimal => Entry(WidthDecimalPattern, IntStripDropSeparators)
    case PlainFloat => Entry(DecimalPattern, FloatOfText)
    case WidthFloat => Entry(DecimalPattern, FloatOfStripped)
    case PrecisionFloat => Entry(PrecisionPattern(f[1..|f| - 1]), FloatOfText)
    case GroupedPrecisionFloat => Entry(GroupedPrecisionPattern(GroupedPrecisionCountAsWritten(f)), FloatDropCommas)
    case Datetime => Entry(DatetimeRegex(f), Strptime(f))
  }

  /** What a rule would build if the `,.Nf` rule took the digits `N` as its count. */
  function IntendedBuild(r: Rule, f: string): Entry
    requires Accepts(r, f)
  {
    if r == GroupedPrecisionFloat then Entry(GroupedPrecisionPattern(GroupedPrecisionCount(f)), FloatDropCommas)
    else Build(r, f)
  }

  /** The dispatcher with the intended `,.Nf` rule: the first accepting rule, built as intended. */
  function IntendedEntryPatternAndDecoder(f: string): Result<Entry, Exception>
  {
    match FirstAccepting(f, 0)
    case None => Err(NotImplementedError)
    case Some(k) => Ok(IntendedBuild(Rules[k], f))
  }

  /** The index of the first rule from `i` on that accepts `f`, if any. */
  function FirstAccepting(f: string, i: nat): (k: Option<nat>)
    requires i <= |Rules|
    ensures k.Some? ==> i <= k.value < |Rules| && Accepts(Rules[k.value], f)
    ensures k.Some? ==> forall j | i <= j < k.value :: !Accepts(Rules[j], f)
    ensures k.None? <==> forall j | i <= j < |Rules| :: !Accepts(Rules[j], f)
    decreases |Rules| - i
  {
    if i == |Rules| then None
    else if Accepts(Rules[i], f) then Some(i)
    else FirstAccepting(f, i + 1)
  }

  /** The dispatcher returns what the `k`-th rule builds when it is the first to accept. */
  lemma DispatchAt(f: string, k: nat)
    requires k < |Rules| && Accepts(Rules[k], f)
    requires forall j | 0 <= j < k :: !Accepts(Rules[j], f)
    ensures EntryPatternAndDecoder(f) == Ok(Build(Rules[k], f))
  {
    EarlierRulesReject(f, k);
    DispatchByTests(f, k);
  }

  /** The same, with the earlier rules' tests failing stated directly. */
  lemma DispatchByTests(f: string, k: nat)
    requires k < |Rules| && Accepts(Rules[k], f) && RejectedBefore(f, k)
    ensures EntryPatternAndDecoder(f) == Ok(Build(Rules[k], f))
  {
    if k < 4 {
      DispatchEarly(f, k);
    } else if k < 8 {
      DispatchMiddle(f, k);
    } else {
      DispatchLate(f, k);
    }
  }

  /** The tests of the rules before the `k`-th fail. */
  predicate RejectedBefore(f: string, k: nat)
  {
    (k > 0 ==> !IsDigitString(f)) && (k > 1 ==> f != ",") &&
    (k > 2 ==> !AlignWidthPrefix(f)) && (k > 3 ==> !FillAlignWidthPrefix(f)) &&
    (k > 4 ==> !InDn(f)) && (k > 5 ==> !WidthIntegerSpec(f)) &&
    (k > 6 ==> f != "f") && (k > 7 ==> !WidthFloatPrefix(f)) &&
    (k > 8 ==> !PrecisionFloatPrefix(f)) && (k > 9 ==> !GroupedPrecisionFloatPrefix(f)) &&
    (k > 10 ==> !HasYearToken(f))
  }

  lemma EarlierRulesReject(f: string, k: nat)
    requires k <= |Rules| && forall j | 0 <= j < k :: !Accepts(Rules[j], f)
    ensures RejectedBefore(f, k)
  {
    if k > 0 { assert !Accepts(Rules[0], f); }
    if k > 1 { assert !Accepts(Rules[1], f); }
    if k > 2 { assert !Accepts(Rules[2], f); }
    if k > 3 { assert !Accepts(Rules[3], f); }
    if k > 4 { assert !Accepts(Rules[4], f); }
    if k > 5 { assert !Accepts(Rules[5], f); }
    if k > 6 { assert !Accepts(Rules[6], f); }
    if k > 7 { assert !Accepts(Rules[7], f); }
    if k > 8 { assert !Accepts(Rules[8], f); }
    if k > 9 { assert !Accepts(Rules[9], f); }
    if k > 10 { assert !Accepts(Rules[10], f); }
  }

  lemma DispatchEarly(f: string, k: nat)
    requires k < 4 && Accepts(Rules[k], f) && RejectedBefore(f, k)
    ensures EntryPatternAndDecoder(f) == Ok(Build(Rules[k], f))
  {
    if k == 0 {
      assert IsDigitString(f);
    } else if k == 1 {
      assert f == ",";
    } else if k == 2 {
      assert AlignWidthPrefix(f);
    } else {
      assert FillAlignWidthPrefix(f);
    }
  }

  lemma DispatchMiddle(f: string, k: nat)
    requires 4 <= k < 8 && Accepts(Rules[k], f) && RejectedBefore(f, k)
    ensures EntryPatternAndDecoder(f) == Ok(Build(Rules[k], f))
  {
    if k == 4 {
      assert InDn(f);
    } else if k == 5 {
      assert WidthIntegerSpec(f);
    } else if k == 6 {
      assert f == "f";
    } else {
      assert WidthFloatPrefix(f);
    }
  }

  lemma DispatchLate(f: string, k: nat)
    requires 8 <= k < |Rules| && Accepts(Rules[k], f) && RejectedBefore(f, k)
    ensures EntryPatternAndDecoder(f) == Ok(Build(Rules[k], f))
  {
    if k == 8 {
      assert PrecisionFloatPrefix(f);
    } else if k == 9 {
      assert GroupedPrecisionFloatPrefix(f);
    } else {
      assert k == 10 && HasYearToken(f);
    }
  }

  /** The dispatcher raises `NotImplementedError` when no rule accepts. */
  lemma DispatchNone(f: string)
    requires forall j | 0 <= j < |Rules| :: !Accepts(Rules[j], f)
    ensures EntryPatternAndDecoder(f) == Err(NotImplementedError)
  {
    EarlierRulesReject(f, |Rules|);
    NoTestPasses(f);
  }

  lemma NoTestPasses(f: string)
    requires RejectedBefore(f, |Rules|)
    ensures EntryPatternAndDecoder(f) == Err(NotImplementedError)
  {
  }

  /**
   * Rule order: the dispatcher returns what the first accepting rule builds, and
   * raises `NotImplementedError` exactly when no rule accepts.
   */
  lemma DispatchIsFirstMatch(f: string)
    ensures match FirstAccepting(f, 0)
      case None => EntryPatternAndDecoder(f) == Err(NotImplementedError)
      case Some(k) => EntryPatternAndDecoder(f) == Ok(Build(Rules[k], f))
  {
    var k := FirstAccepting(f, 0);
    if k.Some? {
      DispatchAt(f, k.value);
    } else {
      DispatchNone(f);
    }
  }

  /** The error exit: `NotImplementedError` exactly when no rule accepts the spec. */
  lemma NotImplementedIffNoRule(f: string)
    ensures EntryPatternAndDecoder(f) == Err(NotImplementedError) <==>
      forall j | 0 <= j < |Rules| :: !Accepts(Rules[j], f)
  {
    DispatchIsFirstMatch(f);
  }

  // ------------------------------------------------------------ what each rule accepts

  /** A digits-only spec `w` is a width: `([\s|\d]{w})`, decoded by stripping. */
  lemma WidthSpec(w: string)
    requires IsDigitString(w)
    ensures EntryPatternAndDecoder(w) == Ok(Entry(WidthPattern(w), StripText))
  {
  }

  /**
   * An alignment character and a digit start an alignment spec; the width text is
   * everything after the alignment character, so `>5n` gives the width text `5n`.
   */
  lemma AlignWidthSpec(a: char, rest: string)
    requires a in "<^>" && |rest| > 0 && IsDigit(rest[0])
    ensures EntryPatternAndDecoder([a] + rest) == Ok(Entry(WidthPattern(rest), StripText))
  {
    var f := [a] + rest;
    assert f[0] == a && f[1..] == rest;
    assert !IsDigit(f[0]);
  }

  /**
   * A fill character, an alignment character and a digit: `.{w}` with the width
   * text after the alignment character, decoded by deleting the fill character.
   */
  lemma FillAlignWidthSpec(c: char, a: char, rest: string)
    requires c != '\n' && a in "<^>" && |rest| > 0 && IsDigit(rest[0])
    ensures EntryPatternAndDecoder([c, a] + rest) == Ok(Entry(FillPattern(rest), DeleteFill(c)))
  {
    var f := [c, a] + rest;
    assert f[0] == c && f[1] == a && f[2] == rest[0] && f[2..] == rest;
    assert !IsDigit(f[1]);
  }

  /** The substrings of `dn` are exactly the empty spec, `d`, `n` and `dn`. */
  lemma InDnCases(f: string)
    ensures InDn(f) <==> f in {"", "d", "n", "dn"}
  {
    if InDn(f) {
      var i :| 0 <= i <= 2 - |f| && OccursAt("dn", f, i);
      assert f == "dn"[i..i + |f|];
      if |f| == 1 { assert f == "d" || f == "n"; }
    }
    if f == "" { assert OccursAt("dn", f, 0); }
    if f == "d" { assert OccursAt("dn", f, 0); }
    if f == "n" { assert OccursAt("dn", f, 1); }
    if f == "dn" { assert OccursAt("dn", f, 0); }
  }

  /** The empty spec, `d`, `n` and `dn` take the integer rule that deletes `,` and `.`. */
  lemma DecimalSpec(f: string)
    requires f in {"", "d", "n", "dn"}
    ensures EntryPatternAndDecoder(f) == Ok(Entry(DecimalPattern, IntDropSeparators))
  {
    InDnCases(f);
    assert f != "," && !AlignWidthPrefix(f) && !FillAlignWidthPrefix(f);
    if f != "" { assert !IsDigit(f[0]); }
  }

  /**
   * Digits followed by `d`, `|` or `n`, with or without one trailing newline: the
   * whitespace-tolerant integer rule.
   */
  lemma WidthDecimalSpec(w: string, k: char, newline: bool)
    requires IsDigitString(w) && k in "d|n"
    ensures var f := w + [k] + (if newline then "\n" else "");
      EntryPatternAndDecoder(f) == Ok(Entry(WidthDecimalPattern, IntStripDropSeparators))
  {
    var f := w + [k] + (if newline then "\n" else "");
    assert f[|w|] == k && !IsDigit(k);
    assert f[0] == w[0] && IsDigit(f[0]);
    assert |f| >= 2 && f[1] !in "<^>" by {
      if |w| > 1 { assert f[1] == w[1]; } else { assert f[1] == k; }
    }
    assert !InDn(f) by { InDnCases(f); }
    var g := if |f| > 0 && f[|f| - 1] == '\n' then f[..|f| - 1] else f;
    assert g == w + [k];
    assert g[..|g| - 1] == w;
  }

  /** The spec `f` alone: the plain float rule, text handed to `float()` as it is. */
  lemma PlainFloatSpec()
    ensures EntryPatternAndDecoder("f") == Ok(Entry(DecimalPattern, FloatOfText))
  {
    PlainFloatTests();
    DispatchByTests("f", 6);
  }

  lemma PlainFloatTests()
    ensures RejectedBefore("f", 6) && Accepts(Rules[6], "f")
  {
    var f := "f";
    assert f[0] == 'f' && |f| == 1 && !IsDigit(f[0]);
    NotInDn(f, 0);
    NotWidthInteger(f, 0);
  }

  /** A spec of digits, then `f`, then anything: a float of at least that width. */
  lemma WidthFloatSpec(w: string, rest: string)
    requires IsDigitString(w)
    ensures EntryPatternAndDecoder(w + "f" + rest) == Ok(Entry(DecimalPattern, FloatOfStripped))
  {
    WidthFloatTests(w, rest);
    DispatchByTests(w + "f" + rest, 7);
  }

  lemma WidthFloatTests(w: string, rest: string)
    requires IsDigitString(w)
    ensures var f := w + "f" + rest; RejectedBefore(f, 7) && Accepts(Rules[7], f)
  {
    var f := w + "f" + rest;
    assert f[|w|] == 'f' && f[0] == w[0];
    assert !IsDigitString(f);
    assert |f| >= 2 && f[1] !in "<^>" by {
      if |w| > 1 { assert f[1] == w[1]; } else { assert f[1] == 'f'; }
    }
    NotInDn(f, |w|);
    NotWidthInteger(f, |w|);
    assert f[..|w|] == w;
    LeadingDigitsOfDigitsThen(w, "f" + rest);
    assert w + ("f" + rest) == f;
  }

  /** A spec holding a character other than `d` and `n` is not a substring of `dn`. */
  lemma NotInDn(f: string, i: int)
    requires 0 <= i < |f| && f[i] != 'd' && f[i] != 'n'
    ensures !InDn(f)
  {
    InDnCases(f);
  }

  /**
   * A spec holding a character that is not a digit, not one of `d`, `|`, `n` and
   * not a newline is not a width-and-integer spec.
   */
  lemma NotWidthInteger(f: string, i: int)
    requires 0 <= i < |f| && !IsDigit(f[i]) && f[i] !in "d|n" && f[i] != '\n'
    ensures !WidthIntegerSpec(f)
  {
    var g := if |f| > 0 && f[|f| - 1] == '\n' then f[..|f| - 1] else f;
    assert i < |g| && g[i] == f[i];
    if i < |g| - 1 {
      assert g[..|g| - 1][i] == f[i];
    }
  }

  /** `[0-9]+` takes exactly the digits `w` when the next character is not a digit. */
  lemma LeadingDigitsOfDigitsThen(w: string, rest: string)
    requires AllDigits(w) && (rest == [] || !IsDigit(rest[0]))
    ensures LeadingDigits(w + rest) == |w|
  {
    var s := w + rest;
    assert s[..|w|] == w;
  }

  /** `.Nf` with digits `N`: a float with exactly `N` digits after the point. */
  lemma PrecisionFloatSpec(n: string)
    requires IsDigitString(n)
    ensures EntryPatternAndDecoder("." + n + "f") == Ok(Entry(PrecisionPattern(n), FloatOfText))
  {
    var f := "." + n + "f";
    assert f[0] == '.' && f[1..] == n + "f" && f[1..|f| - 1] == n;
    assert !IsDigit(f[0]) && f != "f" && f != ",";
    assert !InDn(f) by { InDnCases(f); }
    assert f[1] !in "<^>" by { assert f[1] == n[0]; }
    assert !WidthIntegerSpec(f) by {
      assert f[|f| - 1] == 'f' && f[..|f| - 1][0] == '.';
    }
    LeadingDigitsOfDigitsThen(n, "f");
  }

  /**
   * `,.Nf` with digits `N`: grouped digits, a point, then the quantifier text `.N`
   * as written, with a decoder that deletes commas before `float()`.
   */
  lemma GroupedPrecisionFloatSpec(n: string)
    requires IsDigitString(n)
    ensures EntryPatternAndDecoder(",." + n + "f") ==
      Ok(Entry(GroupedPrecisionPattern("." + n), FloatDropCommas))
  {
    var f := ",." + n + "f";
    GroupedPrecisionFloatTests(n);
    DispatchByTests(f, 9);
    assert f[1..|f| - 1] == "." + n;
  }

  /** Only the `,.Nf` rule accepts `,.Nf`. */
  lemma GroupedPrecisionFloatTests(n: string)
    requires IsDigitString(n)
    ensures var f := ",." + n + "f"; RejectedBefore(f, 9) && Accepts(Rules[9], f)
  {
    var f := ",." + n + "f";
    assert f[0] == ',' && f[1] == '.' && f[2..] == n + "f";
    assert !IsDigit(f[0]) && f != "f" && f != ",";
    assert !InDn(f) by { InDnCases(f); }
    assert !WidthIntegerSpec(f) by {
      assert f[|f| - 1] == 'f' && f[..|f| - 1][0] == ',';
    }
    assert LeadingDigits(f) == 0;
    assert !PrecisionFloatPrefix(f);
    LeadingDigitsOfDigitsThen(n, "f");
  }

  /**
   * The `,.Nf` rule as written takes the quantifier text from the second character
   * on, so it starts with the `.`: `{.N}` is no repetition count, and Python's `re`
   * reads it as a literal `{`, any character, the digits and a literal `}`. The
   * intended count is `N`.
   */
  lemma GroupedPrecisionAsWrittenKeepsPoint(n: string)
    requires IsDigitString(n)
    ensures GroupedPrecisionCountAsWritten(",." + n + "f") == "." + n
    ensures !IsDigitString(GroupedPrecisionCountAsWritten(",." + n + "f"))
    ensures GroupedPrecisionCount(",." + n + "f") == n
    ensures GroupedPrecisionPattern(GroupedPrecisionCountAsWritten(",." + n + "f")) ==
      "-?[0-9|,]*\\.[0-9]{." + n + "}"
    ensures GroupedPrecisionPattern(GroupedPrecisionCountAsWritten(",." + n + "f")) != GroupedPrecisionPattern(n)
  {
    var f := ",." + n + "f";
    assert f[1..|f| - 1] == "." + n;
    assert f[2..|f| - 1] == n;
    assert ("." + n)[0] == '.';
    assert |GroupedPrecisionPattern("." + n)| == |GroupedPrecisionPattern(n)| + 1;
  }

  /**
   * The intended `,.Nf` rule: the count is the digits `N`, a repetition count
   * Python's `re` reads as exactly `N` digits after the point.
   */
  lemma IntendedGroupedPrecisionSpec(n: string)
    requires IsDigitString(n)
    ensures IntendedEntryPatternAndDecoder(",." + n + "f") == Ok(Entry(GroupedPrecisionPattern(n), FloatDropCommas))
    ensures IsDigitString(GroupedPrecisionCount(",." + n + "f"))
  {
    var f := ",." + n + "f";
    GroupedPrecisionFloatTests(n);
    IntendedFirstAccepting(f, 9);
    assert f[2..|f| - 1] == n;
  }

  /** The first rule to accept, given that its test passes and the earlier ones fail. */
  lemma IntendedFirstAccepting(f: string, k: nat)
    requires k < |Rules| && Accepts(Rules[k], f) && RejectedBefore(f, k)
    ensures FirstAccepting(f, 0) == Some(k)
  {
    RejectedBeforeNoRule(f, k);
  }

  /** The earlier rules' tests failing means no earlier rule accepts. */
  lemma RejectedBeforeNoRule(f: string, k: nat)
    requires k <= |Rules| && RejectedBefore(f, k)
    ensures forall j | 0 <= j < k :: !Accepts(Rules[j], f)
  {
  }

  /** Where the `,.Nf` rule is the first to accept, the source's dispatcher counts from the second character. */
  lemma AsWrittenAtGroupedPrecision(f: string)
    requires FirstAccepting(f, 0) == Some(9)
    ensures |f| >= 4 && EntryPatternAndDecoder(f) == Ok(Entry(GroupedPrecisionPattern(f[1..|f| - 1]), FloatDropCommas))
  {
    GroupedPrecisionDispatch(f);
    GroupedPrecisionBuilds(f);
  }

  lemma GroupedPrecisionDispatch(f: string)
    requires FirstAccepting(f, 0) == Some(9)
    ensures GroupedPrecisionFloatPrefix(f) && EntryPatternAndDecoder(f) == Ok(Build(GroupedPrecisionFloat, f))
  {
    GroupedPrecisionChosen(f);
    DispatchAt(f, 9);
  }

  /** Where the `,.Nf` rule is the first to accept, the intended dispatcher counts from the third character. */
  lemma IntendedAtGroupedPrecision(f: string)
    requires FirstAccepting(f, 0) == Some(9)
    ensures |f| >= 4 && IntendedEntryPatternAndDecoder(f) == Ok(Entry(GroupedPrecisionPattern(f[2..|f| - 1]), FloatDropCommas))
  {
    GroupedPrecisionChosen(f);
    GroupedPrecisionBuilds(f);
  }

  /** Everywhere else the intended dispatcher agrees with the source's. */
  lemma IntendedElsewhere(f: string)
    requires FirstAccepting(f, 0) != Some(9)
    ensures IntendedEntryPatternAndDecoder(f) == EntryPatternAndDecoder(f)
  {
    DispatchIsFirstMatch(f);
    var k := FirstAccepting(f, 0);
    if k.Some? {
      OnlyRuleNineIsGrouped(k.value);
    }
  }

  lemma OnlyRuleNineIsGrouped(k: nat)
    requires k < |Rules| && k != 9
    ensures Rules[k] != GroupedPrecisionFloat
  {
  }

  lemma GroupedPrecisionChosen(f: string)
    requires FirstAccepting(f, 0) == Some(9)
    ensures Rules[9] == GroupedPrecisionFloat && GroupedPrecisionFloatPrefix(f)
  {
    assert Rules[9] == GroupedPrecisionFloat;
  }

  /** The two counts of the `,.Nf` rule: from the second character, and from the third. */
  lemma GroupedPrecisionBuilds(f: string)
    requires GroupedPrecisionFloatPrefix(f)
    ensures |f| >= 4
    ensures Build(GroupedPrecisionFloat, f) == Entry(GroupedPrecisionPattern(f[1..|f| - 1]), FloatDropCommas)
    ensures IntendedBuild(GroupedPrecisionFloat, f) == Entry(GroupedPrecisionPattern(f[2..|f| - 1]), FloatDropCommas)
  {
  }


  /** A spec that starts with `%Y`: the translated date/time format with a `strptime` decoder. */
  lemma DatetimeSpec(rest: string)
    ensures var f := "%Y" + rest;
      EntryPatternAndDecoder(f) == Ok(Entry(DatetimeRegex(f), Strptime(f)))
  {
    YearFormatTests(rest);
    DispatchByTests("%Y" + rest, 10);
  }

  lemma YearFormatTests(rest: string)
    ensures var f := "%Y" + rest; RejectedBefore(f, 10) && Accepts(Rules[10], f)
  {
    var f := "%Y" + rest;
    assert f[0] == '%' && f[1] == 'Y';
    assert !IsDigit(f[0]) && f != "f" && f != ",";
    NotInDn(f, 0);
    NotWidthInteger(f, 0);
    assert LeadingDigits(f) == 0;
    assert HasYearToken(f) by { assert OccursAt(f, "%Y", 0); }
  }

  /** Spec types the dispatcher does not implement raise `NotImplementedError`. */
  lemma UnimplementedSpecs()
    ensures EntryPatternAndDecoder("zzz") == Err(NotImplementedError)
    ensures forall c | c in "s+_ebxXo" :: EntryPatternAndDecoder([c]) == Err(NotImplementedError)
  {
    NoRuleForLetter('z', "zz");
    assert [ 'z' ] + "zz" == "zzz";
    forall c | c in "s+_ebxXo"
      ensures EntryPatternAndDecoder([c]) == Err(NotImplementedError)
    {
      NoRuleForLetter(c, "");
      assert [c] + "" == [c];
    }
  }

  /**
   * A spec that starts with a character no rule can start with, and holds no `%`
   * and no alignment character, is not implemented.
   */
  lemma NoRuleForLetter(c: char, rest: string)
    requires !IsDigit(c) && c !in ".,%dnf\n<^>" && '%' !in rest
    requires rest == [] || rest[0] !in "<^>"
    ensures EntryPatternAndDecoder([c] + rest) == Err(NotImplementedError)
  {
    var f := [c] + rest;
    assert f[0] == c;
    assert |f| < 2 || f[1] !in "<^>" by { if |f| >= 2 { assert f[1] == rest[0]; } }
    assert !InDn(f) by { InDnCases(f); }
    assert !WidthIntegerSpec(f) by {
      var g := if |f| > 0 && f[|f| - 1] == '\n' then f[..|f| - 1] else f;
      assert g[0] == c;
      if |g| >= 2 { assert g[..|g| - 1][0] == c; }
    }
    assert LeadingDigits(f) == 0;
    assert !HasYearToken(f) by {
      assert '%' !in f;
      OccursHasFirstChar(f, "%Y");
    }
  }

  lemma OccursHasFirstChar(s: string, pat: string)
    requires pat != []
    ensures Occurs(s, pat) ==> pat[0] in s
  {
    if Occurs(s, pat) {
      var i :| 0 <= i <= |s| - |pat| && OccursAt(s, pat, i);
      assert s[i] == s[i..i + |pat|][0];
    }
  }

  /** The alignment rule comes before the `n`-suffixed integer rule: `>5n` is a width. */
  lemma AlignBeatsInteger()
    ensures EntryPatternAndDecoder(">5n") == Ok(Entry(WidthPattern("5n"), StripText))
  {
    AlignWidthSpec('>', "5n");
    assert [ '>' ] + "5n" == ">5n";
  }

  // ------------------------------------------------------------ decoders

  function IntResult(s: string): Result<Value, Exception>
  {
    match ParseInt(s)
    case None => Err(ValueError)
    case Some(n) => Ok(Integer(n))
  }

  /** What a decoder makes of the text its group matched. */
  function Decode(d: Decoder, x: string): (r: Result<Value, Exception>)
    ensures r.Err? ==> r.error == ValueError
    ensures r.Err? ==> d.IntDropCommas? || d.IntDropSeparators? || d.IntStripDropSeparators?
  {
    match d
    case StripText => Ok(Text(Strip(x)))
    case DeleteFill(c) => Ok(Text(Replace(x, [c], "")))
    case IntDropCommas => IntResult(Replace(x, ",", ""))
    case IntDropSeparators => IntResult(Replace(Replace(x, ",", ""), ".", ""))
    case IntStripDropSeparators => IntResult(Replace(Replace(Strip(x), ",", ""), ".", ""))
    case FloatOfText => Ok(FloatOf(x))
    case FloatOfStripped => Ok(FloatOf(Strip(x)))
    case FloatDropCommas => Ok(FloatOf(Replace(x, ",", "")))
    case Strptime(fm) => Ok(DatetimeOf(x, fm))
  }

  predicate NoBlankEnds(s: string)
  {
    s == [] || (!IsWhitespace(s[0]) && !IsWhitespace(s[|s| - 1]))
  }

  /** The strip decoder undoes padding with whitespace on either side (`>5`, `<5`, `^5`). */
  lemma DecodeStripPadded(left: string, s: string, right: string)
    requires AllWhitespace(left) && AllWhitespace(right) && NoBlankEnds(s)
    ensures Decode(StripText, left + s + right) == Ok(Text(s))
  {
    StripPadding(left, s, right);
  }

  /** The fill decoder undoes padding with its fill character on either side. */
  lemma DecodeFillPadded(c: char, left: string, s: string, right: string)
    requires forall i | 0 <= i < |left| :: left[i] == c
    requires forall i | 0 <= i < |right| :: right[i] == c
    requires c !in s
    ensures Decode(DeleteFill(c), left + s + right) == Ok(Text(s))
  {
    ReplaceCharConcat(left, s, c, "");
    ReplaceCharConcat(left + s, right, c, "");
    DeleteRun(left, c);
    DeleteRun(right, c);
    DeleteAbsentChar(s, c);
    assert [] + s + [] == s;
  }

  /** The fill decoder leaves no fill character and keeps every other character. */
  lemma DecodeFillRemovesOnlyFill(c: char, x: string)
    ensures Decode(DeleteFill(c), x).Ok? && c !in Decode(DeleteFill(c), x).value.text
    ensures forall d: char | d != c :: d in Decode(DeleteFill(c), x).value.text <==> d in x
  {
    DeleteCharRemovesAll(x, c);
    forall d: char | d != c
      ensures d in Replace(x, [c], []) <==> d in x
    {
      DeleteCharKeepsOthers(x, c, d);
    }
  }

  /** The `,` decoder reads back what `format(n, ",")` writes. */
  lemma DecodeGrouped(n: int)
    ensures Decode(IntDropCommas, FormatGrouped(n)) == Ok(Integer(n))
  {
    ParseGrouped(n);
  }

  function DigitSeparatorFree(s: string): bool
  {
    ',' !in s && '.' !in s
  }

  /** `IntToString(n)` holds neither `,` nor `.`. */
  lemma IntTextHasNoSeparator(n: int)
    ensures DigitSeparatorFree(IntToString(n))
  {
    var t := NatDigits(if n < 0 then -n else n);
    assert ',' !in t && '.' !in t;
    if n < 0 { assert IntToString(n) == "-" + t; }
  }

  /** The `d`/`n` decoder reads back what `str(n)` writes. */
  lemma DecodeDecimal(n: int)
    ensures Decode(IntDropSeparators, IntToString(n)) == Ok(Integer(n))
  {
    IntTextHasNoSeparator(n);
    DeleteAbsentChar(IntToString(n), ',');
    DeleteAbsentChar(IntToString(n), '.');
    ParseIntToString(n);
  }

  /** The `d`/`n` decoder deletes a `.` instead of reading it as a decimal point. */
  lemma DecimalDecoderDropsPoint(a: string, b: string)
    ensures Decode(IntDropSeparators, a + "." + b) == Decode(IntDropSeparators, a + b)
  {
    var x := Replace(a, ",", "");
    var y := Replace(b, ",", "");
    CommasAroundPoint(a, b);
    PointDeleted(x, y);
  }

  lemma CommasAroundPoint(a: string, b: string)
    ensures Replace(a + "." + b, ",", "") == Replace(a, ",", "") + "." + Replace(b, ",", "")
    ensures Replace(a + b, ",", "") == Replace(a, ",", "") + Replace(b, ",", "")
  {
    assert "," == [','] && "" == [];
    ReplaceCharConcat(a + ".", b, ',', "");
    ReplaceCharConcat(a, ".", ',', "");
    DeleteAbsentChar(".", ',');
    ReplaceCharConcat(a, b, ',', "");
  }

  lemma PointDeleted(x: string, y: string)
    ensures Replace(x + "." + y, ".", "") == Replace(x + y, ".", "")
  {
    assert "." == ['.'] && "" == [];
    ReplaceCharConcat(x + ".", y, '.', "");
    ReplaceCharConcat(x, ".", '.', "");
    DeleteRun(".", '.');
    assert Replace(".", ".", "") == "";
    ReplaceCharConcat(x, y, '.', "");
  }

  /**
   * The width-`d`/`n` decoder reads back a zero-padded or space-padded integer:
   * whitespace around `ZeroPadded(n, zeros)` is stripped, the zeros do not count.
   */
  lemma DecodeWidthDecimal(left: string, n: int, zeros: nat, right: string)
    requires AllWhitespace(left) && AllWhitespace(right)
    ensures Decode(IntStripDropSeparators, left + ZeroPadded(n, zeros) + right) == Ok(Integer(n))
  {
    ZeroPaddedShape(n, zeros);
    ParseZeroPadded(n, zeros);
    DecodeWidthDecimalText(left, ZeroPadded(n, zeros), right, n);
  }

  lemma DecodeWidthDecimalText(left: string, z: string, right: string, n: int)
    requires AllWhitespace(left) && AllWhitespace(right)
    requires NoBlankEnds(z) && DigitSeparatorFree(z) && ParseInt(z) == Some(n)
    ensures Decode(IntStripDropSeparators, left + z + right) == Ok(Integer(n))
  {
    StripPadding(left, z, right);
    DropSeparatorsAbsent(z);
    DecodeStrippedTo(left + z + right, z);
  }

  /** The width-`d`/`n` decoder on a text that strips to `z`. */
  lemma DecodeStrippedTo(x: string, z: string)
    requires Strip(x) == z
    ensures Decode(IntStripDropSeparators, x) == IntResult(Replace(Replace(z, ",", ""), ".", ""))
  {
  }

  /** Deleting `,` and then `.` leaves text that has neither unchanged. */
  lemma DropSeparatorsAbsent(z: string)
    requires DigitSeparatorFree(z)
    ensures Replace(Replace(z, ",", ""), ".", "") == z
  {
    assert "," == [','] && "." == ['.'] && "" == [];
    DeleteAbsentChar(z, ',');
    DeleteAbsentChar(z, '.');
  }

  /** The zero-padded text neither starts nor ends with whitespace, and holds no `,` or `.`. */
  lemma ZeroPaddedShape(n: int, zeros: nat)
    ensures NoBlankEnds(ZeroPadded(n, zeros)) && ZeroPadded(n, zeros) != []
    ensures DigitSeparatorFree(ZeroPadded(n, zeros))
  {
    var z := ZeroPadded(n, zeros);
    var m: nat := if n < 0 then -n else n;
    var t := NatDigits(m);
    var body := Zeros(zeros) + t;
    assert AllDigits(body);
    assert z == (if n < 0 then "-" else "") + body;
    assert z[|z| - 1] == body[|body| - 1];
    assert z[0] == (if n < 0 then '-' else body[0]);
    assert ',' !in body && '.' !in body;
  }

  /**
   * A `|` that an integer sub-pattern let through makes the decoder raise
   * `ValueError`: no deletion or strip removes it, and `int()` rejects it.
   */
  lemma IntDecodersRejectBar(d: Decoder, x: string)
    requires d in {IntDropCommas, IntDropSeparators, IntStripDropSeparators}
    requires '|' in x
    ensures Decode(d, x) == Err(ValueError)
  {
    var s := if d == IntStripDropSeparators then Strip(x) else x;
    StripKeepsNonWhitespace(x, '|');
    assert '|' in s;
    DeleteCharKeepsOthers(s, ',', '|');
    DeleteCharKeepsOthers(Replace(s, ",", ""), '.', '|');
    if d == IntDropCommas {
      ParseIntRejectsBar(Replace(s, ",", ""));
    } else {
      ParseIntRejectsBar(Replace(Replace(s, ",", ""), ".", ""));
    }
  }
}
