/**
 * The template compiler: a template such as `abc{x:5n}abc` becomes one anchored
 * regular-expression text, `^` + the escaped template + `$`, in which the escaped
 * placeholder `\{x:5n\}` is replaced by a named group `(?P<x>...)`, together with
 * a table from each label to the decoder its format spec chose.
 *
 * The placeholders are what `re.findall(r"{(.*)}", template)` returns: since `.`
 * does not match a newline and `.*` is greedy, each line gives at most one entry,
 * the text from its first `{` to its last `}`. The distinct entries are visited
 * in the iteration order of a Python `set`, which the model takes as a parameter.
 */
module TemplateCompiler {
  import opened Wrappers
  import opened Strings
  import opened FormatSpec
  import opened DatetimeFormat

  // ------------------------------------------------------------ entries

  /** The entry one line contributes: the text between its first `{` and its last `}`. */
  function LineEntry(line: string): (r: Option<string>)
    ensures r.Some? ==> '\n' !in line ==> '\n' !in r.value
  {
    var i := IndexOf(line, '{');
    var j := LastIndexOf(line, '}');
    if i >= 0 && j > i then Some(line[i + 1..j]) else None
  }

  function EntriesOfLines(lines: seq<string>): seq<string>
    decreases |lines|
  {
    if lines == [] then []
    else (match LineEntry(lines[0]) case None => [] case Some(e) => [e]) + EntriesOfLines(lines[1..])
  }

  /** `re.findall(r"{(.*)}", t)`. */
  function FindAll(t: string): seq<string>
  {
    EntriesOfLines(Split(t, '\n'))
  }

  /** `order` lists the distinct entries, once each: an iteration order of `set(entries)`. */
  ghost predicate IsSetOrder(order: seq<string>, entries: seq<string>)
  {
    Distinct(order) && (forall e :: e in order <==> e in entries)
  }

  /** No element is listed twice. */
  predicate Distinct(order: seq<string>)
  {
    forall i, j | 0 <= i < j < |order| :: order[i] != order[j]
  }

  // ------------------------------------------------------------ rewriting

  /** What a placeholder looks like in the escaped template: `re.escape("{" + entry + "}")`. */
  function Target(entry: string): string
  {
    Escape("{" + entry + "}")
  }

  /** `(?P<name>regex)`. */
  function NamedGroup(name: string, regex: string): string
  {
    "(?P<" + name + ">" + regex + ")"
  }

  /** `(?P=name)`: a back-reference to the named group. */
  function BackReference(name: string): string
  {
    "(?P=" + name + ")"
  }

  /** The sub-pattern of an entry without a `:`. */
  const AnyText: string := ".+"

  /** The template, escaped and anchored at both ends. */
  function Anchored(t: string): string
  {
    "^" + Escape(t) + "$"
  }

  /** The regular-expression text and the decoder table. */
  datatype Compiled = Compiled(pattern: string, parsers: map<string, Decoder>)

  /**
   * One round of the first loop: an entry with a `:` must split into a label and
   * a spec (else `ValueError`) whose spec a rule accepts (else `NotImplementedError`);
   * its decoder is stored under the label. The first escaped occurrence of the entry
   * becomes the named group.
   */
  function FirstStep(c: Compiled, entry: string): Result<Compiled, Exception>
  {
    if ':' in entry then
      var parts := Split(entry, ':');
      if |parts| != 2 then Err(ValueError)
      else match EntryPatternAndDecoder(parts[1])
        case Err(e) => Err(e)
        case Ok(en) =>
          Ok(Compiled(ReplaceFirst(c.pattern, Target(entry), NamedGroup(parts[0], en.pattern)),
                      c.parsers[parts[0] := en.decoder]))
    else
      Ok(Compiled(ReplaceFirst(c.pattern, Target(entry), NamedGroup(entry, AnyText)), c.parsers))
  }

  /** The first loop from round `i` on. */
  function FirstPass(c: Compiled, order: seq<string>, i: nat): (r: Result<Compiled, Exception>)
    requires i <= |order|
    ensures r.Err? ==> r.error == ValueError || r.error == NotImplementedError
    decreases |order| - i
  {
    if i == |order| then Ok(c)
    else match FirstStep(c, order[i])
      case Err(e) => Err(e)
      case Ok(c') => FirstPass(c', order, i + 1)
  }

  /**
   * One round of the second loop: every entry must split into exactly two parts
   * (else `ValueError`, also for an entry without `:`); each remaining escaped
   * occurrence becomes a back-reference.
   */
  function SecondStep(p: string, entry: string): Result<string, Exception>
  {
    var parts := Split(entry, ':');
    if |parts| != 2 then Err(ValueError)
    else Ok(Replace(p, Target(entry), BackReference(parts[0])))
  }

  function SecondPass(p: string, order: seq<string>, i: nat): (r: Result<string, Exception>)
    requires i <= |order|
    ensures r.Err? ==> r.error == ValueError
    decreases |order| - i
  {
    if i == |order| then Ok(p)
    else match SecondStep(p, order[i])
      case Err(e) => Err(e)
      case Ok(p') => SecondPass(p', order, i + 1)
  }

  /** `generate_regex_and_parsers_from_fstring` for one iteration order of the entries. */
  function CompileSpec(t: string, order: seq<string>): (r: Result<Compiled, Exception>)
    ensures r.Err? ==> r.error == ValueError || r.error == NotImplementedError
  {
    match FirstPass(Compiled(Anchored(t), map[]), order, 0)
    case Err(e) => Err(e)
    case Ok(c) =>
      match SecondPass(c.pattern, order, 0)
      case Err(e) => Err(e)
      case Ok(p) => Ok(Compiled(p, c.parsers))
  }

  /** The compiler as the source runs it: two loops over the distinct entries. */
  method GenerateRegexAndParsers(t: string, order: seq<string>) returns (r: Result<Compiled, Exception>)
    requires IsSetOrder(order, FindAll(t))
    ensures r == CompileSpec(t, order)
  {
    var pattern := Anchored(t);
    var parsers: map<string, Decoder> := map[];
    var i := 0;
    while i < |order|
      invariant 0 <= i <= |order|
      invariant FirstPass(Compiled(pattern, parsers), order, i) == FirstPass(Compiled(Anchored(t), map[]), order, 0)
    {
      var entry := order[i];
      var name, entryRegex;
      if ':' in entry {
        var parts := Split(entry, ':');
        if |parts| != 2 {
          return Err(ValueError);
        }
        name := parts[0];
        var found := EntryPatternAndDecoder(parts[1]);
        if found.Err? {
          return Err(found.error);
        }
        entryRegex := found.value.pattern;
        parsers := parsers[name := found.value.decoder];
      } else {
        name := entry;
        entryRegex := AnyText;
      }
      pattern := ReplaceFirst(pattern, Target(entry), NamedGroup(name, entryRegex));
      i := i + 1;
    }
    ghost var first := Compiled(pattern, parsers);
    i := 0;
    while i < |order|
      invariant 0 <= i <= |order|
      invariant FirstPass(Compiled(Anchored(t), map[]), order, 0) == Ok(first)
      invariant SecondPass(pattern, order, i) == SecondPass(first.pattern, order, 0)
    {
      var entry := order[i];
      var parts := Split(entry, ':');
      if |parts| != 2 {
        return Err(ValueError);
      }
      pattern := Replace(pattern, Target(entry), BackReference(parts[0]));
      i := i + 1;
    }
    r := Ok(Compiled(pattern, parsers));
  }

  // ------------------------------------------------------------ the pattern stays anchored

  predicate IsAnchored(p: string)
  {
    |p| >= 2 && p[0] == '^' && p[|p| - 1] == '$'
  }

  /** An escaped placeholder starts with `\{` and ends with `\}`. */
  lemma TargetShape(entry: string)
    ensures Target(entry) == "\\{" + Escape(entry) + "\\}"
    ensures |Target(entry)| >= 4 && Target(entry)[0] == '\\' && Target(entry)[1] == '{'
    ensures Target(entry)[|Target(entry)| - 1] == '}'
  {
    EscapeBraced(entry);
  }

  lemma FirstStepKeepsAnchors(c: Compiled, entry: string)
    requires IsAnchored(c.pattern)
    ensures FirstStep(c, entry).Ok? ==> IsAnchored(FirstStep(c, entry).value.pattern)
  {
    if ':' in entry {
      var parts := Split(entry, ':');
      if |parts| == 2 {
        var r := EntryPatternAndDecoder(parts[1]);
        if r.Ok? {
          ReplaceTargetKeepsAnchors(c.pattern, entry, NamedGroup(parts[0], r.value.pattern));
        }
      }
    } else {
      ReplaceTargetKeepsAnchors(c.pattern, entry, NamedGroup(entry, AnyText));
    }
  }

  lemma ReplaceTargetKeepsAnchors(p: string, entry: string, rep: string)
    requires IsAnchored(p)
    ensures IsAnchored(ReplaceFirst(p, Target(entry), rep))
  {
    TargetShape(entry);
    ReplaceFirstKeepsEnds(p, Target(entry), rep);
  }

  lemma {:induction false} FirstPassKeepsAnchors(c: Compiled, order: seq<string>, i: nat)
    requires i <= |order| && IsAnchored(c.pattern)
    ensures FirstPass(c, order, i).Ok? ==> IsAnchored(FirstPass(c, order, i).value.pattern)
    decreases |order| - i
  {
    if i < |order| {
      FirstStepKeepsAnchors(c, order[i]);
      if FirstStep(c, order[i]).Ok? {
        FirstPassKeepsAnchors(FirstStep(c, order[i]).value, order, i + 1);
      }
    }
  }

  lemma {:induction false} SecondPassKeepsAnchors(p: string, order: seq<string>, i: nat)
    requires i <= |order| && IsAnchored(p)
    ensures SecondPass(p, order, i).Ok? ==> IsAnchored(SecondPass(p, order, i).value)
    decreases |order| - i
  {
    if i < |order| {
      var parts := Split(order[i], ':');
      if |parts| == 2 {
        TargetShape(order[i]);
        var p' := Replace(p, Target(order[i]), BackReference(parts[0]));
        ReplaceKeepsFirst(p, Target(order[i]), BackReference(parts[0]));
        ReplaceKeepsLast(p, Target(order[i]), BackReference(parts[0]));
        SecondPassKeepsAnchors(p', order, i + 1);
      }
    }
  }

  /**
   * The compiled pattern always starts with `^` and ends with `$`: every text the
   * loops replace starts with `\` and ends with `}`, so neither end is rewritten.
   */
  lemma CompiledPatternIsAnchored(t: string, order: seq<string>)
    ensures CompileSpec(t, order).Ok? ==> IsAnchored(CompileSpec(t, order).value.pattern)
  {
    var start := Compiled(Anchored(t), map[]);
    assert IsAnchored(start.pattern);
    FirstPassKeepsAnchors(start, order, 0);
    var first := FirstPass(start, order, 0);
    if first.Ok? {
      SecondPassKeepsAnchors(first.value.pattern, order, 0);
    }
  }

  // ------------------------------------------------------------ when compilation succeeds

  /** The label of an entry: the text before its first `:` (the whole entry without one). */
  function Label(entry: string): string
  {
    Split(entry, ':')[0]
  }

  /** An entry both loops accept: exactly one `:`, and a spec some rule accepts. */
  predicate ValidEntry(entry: string)
  {
    var parts := Split(entry, ':');
    |parts| == 2 && EntryPatternAndDecoder(parts[1]).Ok?
  }

  /** One round of the first loop fails exactly on an entry with a `:` that is not valid. */
  lemma FirstStepSucceeds(c: Compiled, entry: string)
    ensures FirstStep(c, entry).Ok? <==> (':' in entry ==> ValidEntry(entry))
  {
  }

  lemma {:induction false} FirstPassSucceeds(c: Compiled, order: seq<string>, i: nat)
    requires i <= |order|
    ensures FirstPass(c, order, i).Ok? <==>
      forall k | i <= k < |order| :: ':' in order[k] ==> ValidEntry(order[k])
    decreases |order| - i
  {
    if i < |order| {
      FirstStepSucceeds(c, order[i]);
      var step := FirstStep(c, order[i]);
      if step.Ok? {
        FirstPassSucceeds(step.value, order, i + 1);
        assert FirstPass(c, order, i) == FirstPass(step.value, order, i + 1);
        StepOkRange(order, i);
      } else {
        assert FirstPass(c, order, i) == Err(step.error);
      }
    }
  }

  /** The entries from `i` on pass the first loop exactly when entry `i` and those after it do. */
  lemma StepOkRange(order: seq<string>, i: nat)
    requires i < |order|
    ensures (forall k | i <= k < |order| :: ':' in order[k] ==> ValidEntry(order[k])) <==>
      (':' in order[i] ==> ValidEntry(order[i])) &&
      (forall k | i + 1 <= k < |order| :: ':' in order[k] ==> ValidEntry(order[k]))
  {
  }

  lemma {:induction false} SecondPassSucceeds(p: string, order: seq<string>, i: nat)
    requires i <= |order|
    ensures SecondPass(p, order, i).Ok? <==> forall k | i <= k < |order| :: |Split(order[k], ':')| == 2
    ensures SecondPass(p, order, i).Err? ==> SecondPass(p, order, i).error == ValueError
    decreases |order| - i
  {
    if i < |order| {
      var step := SecondStep(p, order[i]);
      if step.Ok? {
        SecondPassSucceeds(step.value, order, i + 1);
      }
    }
  }

  /**
   * Compilation succeeds, for every iteration order, exactly when every entry has
   * exactly one `:` and a spec some rule accepts. An entry without `:` passes the
   * first loop and fails the second.
   */
  lemma CompileSucceeds(t: string, order: seq<string>)
    requires IsSetOrder(order, FindAll(t))
    ensures CompileSpec(t, order).Ok? <==> forall e | e in FindAll(t) :: ValidEntry(e)
  {
    var start := Compiled(Anchored(t), map[]);
    FirstPassSucceeds(start, order, 0);
    var first := FirstPass(start, order, 0);
    if first.Ok? {
      SecondPassSucceeds(first.value.pattern, order, 0);
    }
    forall k | 0 <= k < |order|
      ensures ValidEntry(order[k]) <==> (':' in order[k] ==> ValidEntry(order[k])) && |Split(order[k], ':')| == 2
    {
      if ':' !in order[k] { SplitWithoutSeparator(order[k], ':'); }
    }
    if forall e | e in FindAll(t) :: ValidEntry(e) {
      assert forall k | 0 <= k < |order| :: ValidEntry(order[k]);
    }
    if CompileSpec(t, order).Ok? {
      forall e | e in FindAll(t)
        ensures ValidEntry(e)
      {
        var k :| 0 <= k < |order| && order[k] == e;
      }
    }
  }

  /** A placeholder without `:` (a plain `{x}`) raises `ValueError` when every other entry is valid. */
  lemma EntryWithoutColonFails(t: string, order: seq<string>, e: string)
    requires IsSetOrder(order, FindAll(t))
    requires e in FindAll(t) && ':' !in e
    requires forall e' | e' in FindAll(t) && ':' in e' :: ValidEntry(e')
    ensures CompileSpec(t, order) == Err(ValueError)
  {
    var start := Compiled(Anchored(t), map[]);
    FirstPassSucceeds(start, order, 0);
    var first := FirstPass(start, order, 0);
    assert first.Ok?;
    SecondPassSucceeds(first.value.pattern, order, 0);
    SplitWithoutSeparator(e, ':');
    var k :| 0 <= k < |order| && order[k] == e;
    assert |Split(order[k], ':')| != 2;
  }

  // ------------------------------------------------------------ the decoder table

  lemma {:induction false} FirstPassKeys(c: Compiled, order: seq<string>, i: nat)
    requires i <= |order| && FirstPass(c, order, i).Ok?
    ensures forall name :: name in FirstPass(c, order, i).value.parsers <==>
      name in c.parsers || LabelledFrom(order, i, name)
    decreases |order| - i
  {
    if i < |order| {
      var c' := FirstStep(c, order[i]).value;
      FirstPassKeys(c', order, i + 1);
      assert FirstPass(c, order, i) == FirstPass(c', order, i + 1);
      forall name
        ensures name in c'.parsers <==> name in c.parsers || (':' in order[i] && Label(order[i]) == name)
      {
      }
      forall name ensures LabelledFrom(order, i, name) <==>
        (':' in order[i] && Label(order[i]) == name) || LabelledFrom(order, i + 1, name)
      {
        LabelledFromSplit(order, i, name);
      }
    }
  }

  /** Some entry from `i` on has a `:` and the label `name`. */
  predicate LabelledFrom(order: seq<string>, i: nat, name: string)
  {
    exists k | i <= k < |order| :: ':' in order[k] && Label(order[k]) == name
  }

  lemma LabelledFromSplit(order: seq<string>, i: nat, name: string)
    requires i < |order|
    ensures LabelledFrom(order, i, name) <==>
      (':' in order[i] && Label(order[i]) == name) || LabelledFrom(order, i + 1, name)
  {
    if LabelledFrom(order, i, name) && !(':' in order[i] && Label(order[i]) == name) {
      var k :| i <= k < |order| && ':' in order[k] && Label(order[k]) == name;
      assert k != i;
    }
  }

  /** A label no later round writes keeps the decoder it has. */
  lemma {:induction false} FirstPassKeepsDecoder(c: Compiled, order: seq<string>, i: nat, name: string)
    requires i <= |order| && FirstPass(c, order, i).Ok? && name in c.parsers
    requires forall k | i <= k < |order| :: ':' in order[k] ==> Label(order[k]) != name
    ensures name in FirstPass(c, order, i).value.parsers
    ensures FirstPass(c, order, i).value.parsers[name] == c.parsers[name]
    decreases |order| - i
  {
    if i < |order| {
      var c' := FirstStep(c, order[i]).value;
      assert c'.parsers[name] == c.parsers[name];
      FirstPassKeepsDecoder(c', order, i + 1, name);
    }
  }

  /** The decoder an entry's spec chose, for an entry with exactly one `:`. */
  function DecoderOf(entry: string): Option<Decoder>
  {
    var parts := Split(entry, ':');
    if |parts| == 2 && EntryPatternAndDecoder(parts[1]).Ok? then
      Some(EntryPatternAndDecoder(parts[1]).value.decoder)
    else None
  }

  lemma {:induction false} FirstPassDecoder(c: Compiled, order: seq<string>, i: nat, k: nat)
    requires i <= k < |order| && FirstPass(c, order, i).Ok? && ':' in order[k]
    requires forall j | i <= j < |order| && j != k :: ':' in order[j] ==> Label(order[j]) != Label(order[k])
    ensures DecoderOf(order[k]).Some?
    ensures Label(order[k]) in FirstPass(c, order, i).value.parsers
    ensures FirstPass(c, order, i).value.parsers[Label(order[k])] == DecoderOf(order[k]).value
    decreases |order| - i
  {
    var c' := FirstStep(c, order[i]).value;
    if i == k {
      FirstPassSucceeds(c, order, i);
      FirstPassKeepsDecoder(c', order, i + 1, Label(order[k]));
    } else {
      FirstPassDecoder(c', order, i + 1, k);
    }
  }

  /**
   * The decoder table: its keys are the labels of the entries, and an entry whose
   * label no other entry shares has its spec's decoder stored under that label.
   */
  lemma CompiledDecoders(t: string, order: seq<string>)
    requires IsSetOrder(order, FindAll(t)) && CompileSpec(t, order).Ok?
    ensures forall name :: name in CompileSpec(t, order).value.parsers <==>
      exists e | e in FindAll(t) :: Label(e) == name
    ensures forall e | e in FindAll(t) && (forall e' | e' in FindAll(t) && e' != e :: Label(e') != Label(e)) ::
      DecoderOf(e).Some? && CompileSpec(t, order).value.parsers[Label(e)] == DecoderOf(e).value
  {
    var start := Compiled(Anchored(t), map[]);
    var first := FirstPass(start, order, 0);
    CompileSucceeds(t, order);
    FirstPassKeys(start, order, 0);
    assert CompileSpec(t, order).value.parsers == first.value.parsers;
    forall name
      ensures name in first.value.parsers <==> exists e | e in FindAll(t) :: Label(e) == name
    {
      if name in first.value.parsers {
        var k :| 0 <= k < |order| && ':' in order[k] && Label(order[k]) == name;
        assert order[k] in FindAll(t);
      }
      if exists e | e in FindAll(t) :: Label(e) == name {
        var e :| e in FindAll(t) && Label(e) == name;
        var k :| 0 <= k < |order| && order[k] == e;
        assert ValidEntry(e);
        if ':' !in e { SplitWithoutSeparator(e, ':'); }
      }
    }
    forall e | e in FindAll(t) && (forall e' | e' in FindAll(t) && e' != e :: Label(e') != Label(e))
      ensures DecoderOf(e).Some? && first.value.parsers[Label(e)] == DecoderOf(e).value
    {
      var k :| 0 <= k < |order| && order[k] == e;
      assert ValidEntry(e);
      if ':' !in e { SplitWithoutSeparator(e, ':'); }
      forall j | 0 <= j < |order| && j != k
        ensures ':' in order[j] ==> Label(order[j]) != Label(order[k])
      {
        assert order[j] in FindAll(t) && order[j] != e;
      }
      FirstPassDecoder(start, order, 0, k);
    }
  }

  // ------------------------------------------------------------ closed forms

  /** No `{` of `s` is preceded by a backslash, so no escaped placeholder starts in `s`. */
  predicate NoEscapedBrace(s: string)
  {
    forall i | 0 <= i < |s| - 1 :: !(s[i] == '\\' && s[i + 1] == '{')
  }

  lemma NoEscapedBraceHasNoTarget(s: string, e: string)
    requires NoEscapedBrace(s)
    ensures !Occurs(s, Target(e))
  {
    var t := Target(e);
    TargetShape(e);
    forall i | 0 <= i <= |s| - |t|
      ensures !OccursAt(s, t, i)
    {
      assert s[i..i + |t|][0] == s[i] && s[i..i + |t|][1] == s[i + 1];
    }
  }

  /** A text with a brace-free left part, a middle free of escaped braces and a brace-free right part. */
  lemma NoEscapedBraceAround(l: string, m: string, r: string)
    requires '{' !in l && '{' !in r && NoEscapedBrace(m)
    requires l == [] || l[|l| - 1] != '\\'
    ensures NoEscapedBrace(l + m + r)
  {
    var s := l + m + r;
    forall i | 0 <= i < |s| - 1
      ensures !(s[i] == '\\' && s[i + 1] == '{')
    {
      if i + 1 < |l| {
        assert s[i + 1] == l[i + 1];
      } else if i + 1 == |l| {
        assert s[i] == l[i];
      } else if i + 1 < |l| + |m| {
        assert s[i] == m[i - |l|] && s[i + 1] == m[i + 1 - |l|];
      } else {
        assert s[i + 1] == r[i + 1 - |l| - |m|];
      }
    }
  }

  /** Before the end of a text free of escaped braces, no escaped placeholder starts. */
  lemma NoTargetBefore(x: string, e: string, y: string)
    requires NoEscapedBrace(x)
    ensures forall i | 0 <= i < |x| :: !OccursAt(x + Target(e) + y, Target(e), i)
  {
    var t := Target(e);
    var s := x + t + y;
    TargetShape(e);
    forall i | 0 <= i < |x|
      ensures !OccursAt(s, t, i)
    {
      assert !(s[i] == '\\' && s[i + 1] == '{') by {
        if i + 1 < |x| {
          assert s[i] == x[i] && s[i + 1] == x[i + 1];
        } else {
          assert s[i + 1] == t[0];
        }
      }
      if i + |t| <= |s| {
        assert s[i..i + |t|][0] == s[i] && s[i..i + |t|][1] == s[i + 1];
      }
    }
  }

  /** The replacement with count 1 rewrites the first escaped placeholder. */
  lemma ReplaceFirstTarget(x: string, e: string, y: string, rep: string)
    requires NoEscapedBrace(x)
    ensures ReplaceFirst(x + Target(e) + y, Target(e), rep) == x + rep + y
  {
    var t := Target(e);
    var s := x + t + y;
    assert s[|x|..|x| + |t|] == t;
    assert OccursAt(s, t, |x|);
    NoTargetBefore(x, e, y);
    assert Find(s, t) == |x|;
    assert s[..|x|] == x;
    assert s[|x| + |t|..] == y;
  }

  /** The replacement of all occurrences rewrites the only escaped placeholder. */
  lemma ReplaceOnlyTarget(x: string, e: string, y: string, rep: string)
    requires NoEscapedBrace(x) && NoEscapedBrace(y)
    ensures Replace(x + Target(e) + y, Target(e), rep) == x + rep + y
  {
    var t := Target(e);
    TargetShape(e);
    NoTargetBefore(x, e, y);
    assert x + t + y == x + (t + y);
    ReplaceCopiesUnmatched(x, t + y, t, rep);
    ReplaceAtStart(t, y, rep);
    NoEscapedBraceHasNoTarget(y, e);
    ReplaceAbsent(y, t, rep);
  }

  /** The entry of one line holding one placeholder. */
  lemma LineEntryOfPlaceholder(a: string, e: string, b: string)
    requires '{' !in a && '}' !in b
    ensures LineEntry(a + "{" + e + "}" + b) == Some(e)
  {
    var line := a + "{" + e + "}" + b;
    PlaceholderLineBraces(line, a, e, b);
    LineEntryBetween(line, |a|, |a| + 1 + |e|);
  }

  lemma PlaceholderLineBraces(line: string, a: string, e: string, b: string)
    requires '{' !in a && '}' !in b
    requires line == a + "{" + e + "}" + b
    ensures IndexOf(line, '{') == |a| && LastIndexOf(line, '}') == |a| + 1 + |e|
    ensures line[|a| + 1..|a| + 1 + |e|] == e
  {
    var rest := "{" + e + "}" + b;
    var init := a + "{" + e + "}";
    assert line == a + rest && line == init + b;
    FirstCharAfter(line, a, rest, '{');
    LastCharBefore(line, init, b, '}');
    assert line[|a| + 1..|a| + 1 + |e|] == init[|a| + 1..|init| - 1];
  }

  /** `c` just after a prefix free of `c` is the first `c`. */
  lemma FirstCharAfter(line: string, p: string, rest: string, c: char)
    requires line == p + rest && c !in p && rest != [] && rest[0] == c
    ensures IndexOf(line, c) == |p|
  {
    forall j | 0 <= j < |p| ensures line[j] != c {
      assert line[j] == p[j];
    }
    IndexOfIs(line, c, |p|);
  }

  /** `c` just before a suffix free of `c` is the last `c`. */
  lemma LastCharBefore(line: string, init: string, q: string, c: char)
    requires line == init + q && c !in q && init != [] && init[|init| - 1] == c
    ensures LastIndexOf(line, c) == |init| - 1
  {
    forall j | |init| - 1 < j < |line| ensures line[j] != c {
      assert line[j] == q[j - |init|];
    }
    LastIndexOfIs(line, c, |init| - 1);
  }

  lemma LineEntryBetween(line: string, open: int, close: int)
    requires 0 <= open < close < |line|
    requires IndexOf(line, '{') == open && LastIndexOf(line, '}') == close
    ensures LineEntry(line) == Some(line[open + 1..close])
  {
    var i := IndexOf(line, '{');
    var j := LastIndexOf(line, '}');
    assert i >= 0 && j > i;
  }

  /** A one-line template with one placeholder has that placeholder as its only entry. */
  lemma SingleLineEntry(a: string, e: string, b: string)
    requires '\n' !in a && '\n' !in e && '\n' !in b
    requires '{' !in a && '}' !in b
    ensures FindAll(a + "{" + e + "}" + b) == [e]
  {
    var t := a + "{" + e + "}" + b;
    assert '\n' !in t;
    SplitWithoutSeparator(t, '\n');
    LineEntryOfPlaceholder(a, e, b);
    assert EntriesOfLines([t]) == [e] + EntriesOfLines([]);
  }

  /** A two-line template with one placeholder per line has one entry per line. */
  lemma TwoLineEntries(a: string, e1: string, b: string, c: string, e2: string, d: string)
    requires '\n' !in a && '\n' !in e1 && '\n' !in b && '\n' !in c && '\n' !in e2 && '\n' !in d
    requires '{' !in a && '}' !in b && '{' !in c && '}' !in d
    ensures FindAll(a + "{" + e1 + "}" + b + "\n" + c + "{" + e2 + "}" + d) == [e1, e2]
  {
    var l1 := a + "{" + e1 + "}" + b;
    var l2 := c + "{" + e2 + "}" + d;
    assert a + "{" + e1 + "}" + b + "\n" + c + "{" + e2 + "}" + d == l1 + ['\n'] + l2;
    SplitAtOnlySeparator(l1, l2, '\n');
    LineEntryOfPlaceholder(a, e1, b);
    LineEntryOfPlaceholder(c, e2, d);
    assert [l1, l2][1..] == [l2];
    assert EntriesOfLines([l2]) == [e2] + EntriesOfLines([]);
  }

  /** The only iteration order of a set with one element. */
  lemma SingletonOrder(order: seq<string>, entries: seq<string>, e: string)
    requires IsSetOrder(order, entries)
    requires entries != [] && forall k | 0 <= k < |entries| :: entries[k] == e
    ensures order == [e]
  {
    assert entries[0] in entries;
    assert e in order;
    assert forall k | 0 <= k < |order| :: order[k] == e by {
      forall k | 0 <= k < |order|
        ensures order[k] == e
      {
        assert order[k] in order;
      }
    }
    FirstTwoDiffer(order);
    assert |order| == 1;
  }

  lemma FirstTwoDiffer(order: seq<string>)
    requires forall i, j | 0 <= i < j < |order| :: order[i] != order[j]
    ensures |order| >= 2 ==> order[0] != order[1]
  {
  }

  /** Both loops on a single entry `name:spec`, given what its two replacements give. */
  lemma CompileSingleEntry(t: string, name: string, spec: string, regex: string, d: Decoder,
                           p1: string, p2: string)
    requires ':' !in name && ':' !in spec
    requires EntryPatternAndDecoder(spec) == Ok(Entry(regex, d))
    requires ReplaceFirst(Anchored(t), Target(name + ":" + spec), NamedGroup(name, regex)) == p1
    requires Replace(p1, Target(name + ":" + spec), BackReference(name)) == p2
    ensures CompileSpec(t, [name + ":" + spec]) == Ok(Compiled(p2, map[name := d]))
  {
    var e := name + ":" + spec;
    SplitLabelSpec(name, spec);
    var start := Compiled(Anchored(t), map[]);
    var c := Compiled(p1, map[name := d]);
    assert FirstStep(start, e) == Ok(c);
    assert FirstPass(c, [e], 1) == Ok(c);
    assert FirstPass(start, [e], 0) == Ok(c);
    assert SecondStep(p1, e) == Ok(p2);
    assert SecondPass(p2, [e], 1) == Ok(p2);
    assert SecondPass(p1, [e], 0) == Ok(p2);
  }

  lemma SplitLabelSpec(name: string, spec: string)
    requires ':' !in name && ':' !in spec
    ensures ':' in name + ":" + spec
    ensures Split(name + ":" + spec, ':') == [name, spec]
  {
    assert ":" == [':'];
    SplitAtOnlySeparator(name, spec, ':');
    assert (name + ":" + spec)[|name|] == ':';
  }

  /** The escaped, anchored template around one placeholder. */
  lemma AnchoredAround(a: string, e: string, b: string)
    ensures Anchored(a + "{" + e + "}" + b) == "^" + Escape(a) + Target(e) + (Escape(b) + "$")
  {
    EscapeAround(a, e, b);
    Regroup("^", Escape(a), Target(e), Escape(b), "$");
  }

  lemma EscapeAround(a: string, e: string, b: string)
    ensures Escape(a + "{" + e + "}" + b) == Escape(a) + Target(e) + Escape(b)
  {
    var br := "{" + e + "}";
    assert a + "{" + e + "}" + b == a + (br + b);
    EscapeConcat(a, br + b);
    EscapeConcat(br, b);
  }

  lemma Regroup(p: string, x: string, y: string, z: string, q: string)
    ensures p + (x + y + z) + q == p + x + y + (z + q)
  {
  }

  /**
   * One placeholder `{name:spec}` on one line: the pattern is the escaped text
   * around it, anchored, with the named group in its place, and the decoder table
   * maps the label to the spec's decoder.
   */
  lemma SinglePlaceholder(a: string, name: string, spec: string, b: string, regex: string,
                          d: Decoder, order: seq<string>)
    requires '\n' !in a && '\n' !in name && '\n' !in spec && '\n' !in b
    requires '{' !in a && '{' !in b && '}' !in b && '{' !in name
    requires ':' !in name && ':' !in spec
    requires NoEscapedBrace(regex)
    requires EntryPatternAndDecoder(spec) == Ok(Entry(regex, d))
    requires IsSetOrder(order, FindAll(a + "{" + name + ":" + spec + "}" + b))
    ensures FindAll(a + "{" + name + ":" + spec + "}" + b) == [name + ":" + spec]
    ensures CompileSpec(a + "{" + name + ":" + spec + "}" + b, order) ==
      Ok(Compiled("^" + Escape(a) + NamedGroup(name, regex) + Escape(b) + "$", map[name := d]))
  {
    var e := name + ":" + spec;
    var t := a + "{" + e + "}" + b;
    LabelledPlaceholder(a, name, spec, b);
    NoNewlineInEntry(name, spec);
    SingleLineEntry(a, e, b);
    SingletonOrder(order, FindAll(t), e);
    var x, y := "^" + Escape(a), Escape(b) + "$";
    AnchoredAround(a, e, b);
    var g := NamedGroup(name, regex);
    EscapedHasNoEscapedBrace(a);
    ReplaceFirstTarget(x, e, y, g);
    GroupIsFreeOfEscapedBrace(a, name, regex, b);
    NoEscapedBraceHasNoTarget(x + g + y, e);
    ReplaceAbsent(x + g + y, Target(e), BackReference(name));
    CompileSingleEntry(t, name, spec, regex, d, x + g + y, x + g + y);
    Regroup2("^" + Escape(a), g, Escape(b), "$");
  }

  /** An escaped brace-free text, after `^`, has no escaped brace. */
  lemma EscapedHasNoEscapedBrace(a: string)
    requires '{' !in a
    ensures NoEscapedBrace("^" + Escape(a))
    ensures '{' !in Escape(a)
  {
    EscapeKeepsChar(a, '{');
    assert '{' !in "^" + Escape(a);
  }

  lemma LabelledPlaceholder(a: string, name: string, spec: string, b: string)
    ensures a + "{" + name + ":" + spec + "}" + b == a + "{" + (name + ":" + spec) + "}" + b
  {
  }

  lemma NoNewlineInEntry(name: string, spec: string)
    requires '\n' !in name && '\n' !in spec
    ensures '\n' !in name + ":" + spec
  {
  }

  lemma Regroup2(x: string, g: string, y: string, q: string)
    ensures x + g + (y + q) == x + g + y + q
  {
  }

  /** The anchored pattern after the first loop, around a named group, has no escaped brace. */
  lemma GroupIsFreeOfEscapedBrace(a: string, name: string, regex: string, b: string)
    requires '{' !in a && '{' !in b && '{' !in name && NoEscapedBrace(regex)
    ensures NoEscapedBrace("^" + Escape(a) + NamedGroup(name, regex) + (Escape(b) + "$"))
    ensures NoEscapedBrace("^" + Escape(a) + NamedGroup(name, regex) + Escape(b))
  {
    EscapeKeepsChar(a, '{');
    EscapeKeepsChar(b, '{');
    var l := "^" + Escape(a) + "(?P<" + name + ">";
    NoEscapedBraceAround(l, regex, ")" + (Escape(b) + "$"));
    NoEscapedBraceAround(l, regex, ")" + Escape(b));
    OpenGroup("^" + Escape(a), name, regex, Escape(b) + "$");
    OpenGroup("^" + Escape(a), name, regex, Escape(b));
  }

  lemma OpenGroup(x: string, name: string, regex: string, y: string)
    ensures x + NamedGroup(name, regex) + y == (x + "(?P<" + name + ">") + regex + (")" + y)
  {
  }

  /** The escaped, anchored template around a placeholder written twice. */
  lemma AnchoredAroundTwice(a: string, e: string, m: string, z: string)
    ensures Anchored(a + "{" + e + "}" + m + "{" + e + "}" + z) ==
      "^" + Escape(a) + Target(e) + (Escape(m) + Target(e) + Escape(z) + "$")
  {
    var q := m + "{" + e + "}" + z;
    SplitAfterFirstPlaceholder(a, e, m, z);
    EscapeAround(a, e, q);
    EscapeAround(m, e, z);
    Regroup("^", Escape(a), Target(e), Escape(q), "$");
  }

  lemma SplitAfterFirstPlaceholder(a: string, e: string, m: string, z: string)
    ensures a + "{" + e + "}" + m + "{" + e + "}" + z == a + "{" + e + "}" + (m + "{" + e + "}" + z)
  {
  }

  /**
   * The same placeholder on two lines: its first occurrence becomes the named group
   * and the second a back-reference to it.
   */
  lemma RepeatedPlaceholder(a: string, b: string, c: string, z: string, name: string, spec: string,
                            regex: string, d: Decoder, order: seq<string>)
    requires '\n' !in a && '\n' !in b && '\n' !in c && '\n' !in z && '\n' !in name && '\n' !in spec
    requires '{' !in a && '{' !in b && '{' !in c && '{' !in z && '{' !in name
    requires '}' !in b && '}' !in z
    requires ':' !in name && ':' !in spec
    requires NoEscapedBrace(regex)
    requires EntryPatternAndDecoder(spec) == Ok(Entry(regex, d))
    requires IsSetOrder(order, FindAll(a + "{" + name + ":" + spec + "}" + b + "\n" + c + "{" + name + ":" + spec + "}" + z))
    ensures CompileSpec(a + "{" + name + ":" + spec + "}" + b + "\n" + c + "{" + name + ":" + spec + "}" + z, order) ==
      Ok(Compiled("^" + Escape(a) + NamedGroup(name, regex) + Escape(b + "\n" + c) + BackReference(name) +
                  Escape(z) + "$", map[name := d]))
  {
    var e := name + ":" + spec;
    var m := b + "\n" + c;
    var t := a + "{" + e + "}" + m + "{" + e + "}" + z;
    LabelledRepeatedPlaceholder(a, name, spec, b, c, z);
    NoNewlineInEntry(name, spec);
    TwoLineEntries(a, e, b, c, e, z);
    SingletonOrder(order, FindAll(t), e);
    var x := "^" + Escape(a);
    var y := Escape(m) + Target(e) + Escape(z) + "$";
    AnchoredAroundTwice(a, e, m, z);
    var g := NamedGroup(name, regex);
    EscapedHasNoEscapedBrace(a);
    ReplaceFirstTarget(x, e, y, g);
    var u := x + g + Escape(m);
    var w := Escape(z) + "$";
    Regroup3(x, g, Escape(m), Target(e), Escape(z), "$");
    assert '{' !in m;
    GroupIsFreeOfEscapedBrace(a, name, regex, m);
    EscapedHasNoEscapedBrace(z);
    assert '{' !in w;
    ReplaceOnlyTarget(u, e, w, BackReference(name));
    CompileSingleEntry(t, name, spec, regex, d, x + g + y, u + BackReference(name) + w);
    Regroup2(u, BackReference(name), Escape(z), "$");
  }

  lemma LabelledRepeatedPlaceholder(a: string, name: string, spec: string, b: string, c: string, z: string)
    ensures a + "{" + name + ":" + spec + "}" + b + "\n" + c + "{" + name + ":" + spec + "}" + z ==
      a + "{" + (name + ":" + spec) + "}" + (b + "\n" + c) + "{" + (name + ":" + spec) + "}" + z
    ensures a + "{" + (name + ":" + spec) + "}" + b + "\n" + c + "{" + (name + ":" + spec) + "}" + z ==
      a + "{" + (name + ":" + spec) + "}" + (b + "\n" + c) + "{" + (name + ":" + spec) + "}" + z
  {
  }

  lemma Regroup3(x: string, g: string, m: string, t: string, z: string, q: string)
    ensures x + g + (m + t + z + q) == x + g + m + t + (z + q)
  {
  }

  /**
   * Two placeholders with a `:` on one line form a single entry, from the first
   * `{` to the last `}`, with more than one `:`: splitting it fails.
   */
  lemma TwoPlaceholdersOnOneLine(a: string, e1: string, m: string, e2: string, b: string, order: seq<string>)
    requires '\n' !in a && '\n' !in e1 && '\n' !in m && '\n' !in e2 && '\n' !in b
    requires '{' !in a && '}' !in b
    requires ':' in e1 && ':' in e2
    requires IsSetOrder(order, FindAll(a + "{" + e1 + "}" + m + "{" + e2 + "}" + b))
    ensures FindAll(a + "{" + e1 + "}" + m + "{" + e2 + "}" + b) == [e1 + "}" + m + "{" + e2]
    ensures CompileSpec(a + "{" + e1 + "}" + m + "{" + e2 + "}" + b, order) == Err(ValueError)
  {
    var e := e1 + "}" + m + "{" + e2;
    var t := a + "{" + e + "}" + b;
    assert t == a + "{" + e1 + "}" + m + "{" + e2 + "}" + b;
    SingleLineEntry(a, e, b);
    SingletonOrder(order, FindAll(t), e);
    JoinedEntryColons(e1, m, e2);
    OnlyEntryTooManyColons(t, e);
  }

  lemma JoinedEntryColons(e1: string, m: string, e2: string)
    requires ':' in e1 && ':' in e2
    ensures |Split(e1 + "}" + m + "{" + e2, ':')| >= 3
  {
    CountConcat(e1 + "}" + m + "{", e2, ':');
    CountConcat(e1, "}" + m + "{", ':');
  }

  /** A template whose only entry has two or more `:` fails in the first loop. */
  lemma OnlyEntryTooManyColons(t: string, e: string)
    requires |Split(e, ':')| >= 3
    ensures CompileSpec(t, [e]) == Err(ValueError)
  {
    assert ':' in e;
    var start := Compiled(Anchored(t), map[]);
    assert FirstStep(start, e) == Err(ValueError);
    assert FirstPass(start, [e], 0) == Err(ValueError);
  }

  /** A placeholder without a format spec, `{name}`, always ends in `ValueError`. */
  lemma PlainPlaceholderFails(a: string, name: string, b: string, order: seq<string>)
    requires '\n' !in a && '\n' !in name && '\n' !in b
    requires '{' !in a && '}' !in b && ':' !in name
    requires IsSetOrder(order, FindAll(a + "{" + name + "}" + b))
    ensures CompileSpec(a + "{" + name + "}" + b, order) == Err(ValueError)
  {
    SingleLineEntry(a, name, b);
    EntryWithoutColonFails(a + "{" + name + "}" + b, order, name);
  }

  // ------------------------------------------------------------ sub-patterns hold no escaped brace

  lemma BraceFreeHasNoEscapedBrace(s: string)
    requires '{' !in s
    ensures NoEscapedBrace(s)
  {
  }

  lemma BackslashFreeHasNoEscapedBrace(s: string)
    requires '\\' !in s
    ensures NoEscapedBrace(s)
  {
  }

  /** A quantifier `{n}` after a text that does not end in a backslash. */
  lemma QuantifierHasNoEscapedBrace(l: string, n: string, r: string)
    requires '{' !in l && '{' !in n && '{' !in r && l != [] && l[|l| - 1] != '\\'
    ensures NoEscapedBrace(l + "{" + n + "}" + r)
  {
    NoEscapedBraceAround(l, "{", n + "}" + r);
    assert l + "{" + n + "}" + r == l + "{" + (n + "}" + r);
  }

  /** The sub-patterns the dispatcher can return for a spec. */
  lemma PatternCandidates(f: string)
    ensures EntryPatternAndDecoder(f).Ok? ==>
      var p := EntryPatternAndDecoder(f).value.pattern;
      p == WidthPattern(f) || (|f| >= 1 && p == WidthPattern(f[1..])) || (|f| >= 2 && p == FillPattern(f[2..])) ||
      p in {GroupedIntPattern, DecimalPattern, WidthDecimalPattern} ||
      (|f| >= 2 && p in {PrecisionPattern(f[1..|f| - 1]), GroupedPrecisionPattern(f[1..|f| - 1])}) ||
      p == DatetimeRegex(f)
  {
    // The empty branches split the proof along the dispatcher's tests, one group of rules each.
    if IsDigitString(f) || f == "," || AlignWidthPrefix(f) || FillAlignWidthPrefix(f) {
    } else if InDn(f) || WidthIntegerSpec(f) || f == "f" || WidthFloatPrefix(f) {
    } else if PrecisionFloatPrefix(f) || GroupedPrecisionFloatPrefix(f) {
    } else {
    }
  }

  lemma BraceFreeSlice(f: string, i: nat, j: nat)
    requires '{' !in f && i <= j <= |f|
    ensures '{' !in f[i..j]
  {
    forall k | 0 <= k < j - i
      ensures f[i..j][k] != '{'
    {
      assert f[i..j][k] == f[i + k];
    }
  }

  lemma SubPatternsHaveNoEscapedBrace(n: string)
    requires '{' !in n
    ensures NoEscapedBrace(WidthPattern(n)) && NoEscapedBrace(FillPattern(n))
    ensures NoEscapedBrace(PrecisionPattern(n)) && NoEscapedBrace(GroupedPrecisionPattern(n))
  {
    QuantifierHasNoEscapedBrace("([\\s|\\d]", n, ")");
    assert WidthPattern(n) == "([\\s|\\d]" + "{" + n + "}" + ")";
    QuantifierHasNoEscapedBrace(".", n, "");
    assert FillPattern(n) == "." + "{" + n + "}" + "";
    QuantifierHasNoEscapedBrace("-?[0-9]*\\.[0-9]", n, "");
    assert PrecisionPattern(n) == "-?[0-9]*\\.[0-9]" + "{" + n + "}" + "";
    QuantifierHasNoEscapedBrace("-?[0-9|,]*\\.[0-9]", n, "");
    assert GroupedPrecisionPattern(n) == "-?[0-9|,]*\\.[0-9]" + "{" + n + "}" + "";
  }

  lemma ConstantPatternsHaveNoEscapedBrace()
    ensures NoEscapedBrace(GroupedIntPattern) && NoEscapedBrace(DecimalPattern)
    ensures NoEscapedBrace(WidthDecimalPattern)
  {
    BraceFreeHasNoEscapedBrace(GroupedIntPattern);
    BraceFreeHasNoEscapedBrace(DecimalPattern);
    BraceFreeHasNoEscapedBrace(WidthDecimalPattern);
  }

  /**
   * No sub-pattern the dispatcher builds from a spec free of `{` and `\` holds an
   * escaped brace: the second loop can only meet the template's own placeholders.
   */
  lemma EntryPatternHasNoEscapedBrace(f: string)
    requires '{' !in f && '\\' !in f
    ensures EntryPatternAndDecoder(f).Ok? ==> NoEscapedBrace(EntryPatternAndDecoder(f).value.pattern)
  {
    PatternCandidates(f);
    SubPatternsHaveNoEscapedBrace(f);
    if |f| >= 1 {
      BraceFreeSlice(f, 1, |f|);
      SubPatternsHaveNoEscapedBrace(f[1..]);
    }
    if |f| >= 2 {
      BraceFreeSlice(f, 2, |f|);
      SubPatternsHaveNoEscapedBrace(f[2..]);
      BraceFreeSlice(f, 1, |f| - 1);
      SubPatternsHaveNoEscapedBrace(f[1..|f| - 1]);
    }
    ConstantPatternsHaveNoEscapedBrace();
    NoBackslashIntroduced(f);
    BackslashFreeHasNoEscapedBrace(DatetimeRegex(f));
  }

  /** A single placeholder whose spec no rule accepts, or that fails to dispatch, raises that error. */
  lemma SinglePlaceholderRejected(a: string, name: string, spec: string, b: string, order: seq<string>)
    requires '\n' !in a && '\n' !in name && '\n' !in spec && '\n' !in b
    requires '{' !in a && '}' !in b
    requires ':' !in name && ':' !in spec
    requires EntryPatternAndDecoder(spec).Err?
    requires IsSetOrder(order, FindAll(a + "{" + name + ":" + spec + "}" + b))
    ensures CompileSpec(a + "{" + name + ":" + spec + "}" + b, order) == Err(EntryPatternAndDecoder(spec).error)
  {
    var e := name + ":" + spec;
    var t := a + "{" + e + "}" + b;
    LabelledPlaceholder(a, name, spec, b);
    NoNewlineInEntry(name, spec);
    SingleLineEntry(a, e, b);
    SingletonOrder(order, FindAll(t), e);
    SplitLabelSpec(name, spec);
    assert FirstStep(Compiled(Anchored(t), map[]), e) == Err(EntryPatternAndDecoder(spec).error);
  }
}
