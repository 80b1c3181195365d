/**
 * The parser object and `parse_fstring`. A parser holds the compiled pattern and
 * the decoder table; calling it on a string matches the pattern at the start of
 * the string and decodes every named group with the decoder stored under its name.
 *
 * The regular-expression engine is not modelled: it is a parameter `engine` that
 * maps a pattern and a string to the groups of the match (name and matched text,
 * in the order the groups appear in the pattern), or to `None` when there is no
 * match.
 */
module Runtime {
  import opened Wrappers
  import opened Strings
  import opened FormatSpec
  import opened TemplateCompiler

  /** The named groups of a match, in pattern order: `match.groupdict().items()`. */
  type Groups = seq<(string, string)>

  /** A regular-expression engine: `re.match(pattern, s)`, reduced to its named groups. */
  type Engine = (string, string) -> Option<Groups>

  /** What a call gives back: `None`, a dictionary of decoded values, or an exception. */
  datatype Outcome = NoMatch | Decoded(values: map<string, Value>) | Raised(error: Exception)

  /** A group the table can decode: it has a decoder, and the decoder accepts its text. */
  predicate GroupDecodes(parsers: map<string, Decoder>, g: (string, string))
  {
    g.0 in parsers && Decode(parsers[g.0], g.1).Ok?
  }

  /** The labels of the groups. */
  function Names(groups: Groups): set<string>
  {
    set i | 0 <= i < |groups| :: groups[i].0
  }

  /**
   * The dictionary comprehension of `__call__`, from the left, on top of `acc`:
   * a group without a decoder raises `KeyError`, a decoder that fails raises its
   * error, and the first such group decides.
   */
  function DecodeGroups(parsers: map<string, Decoder>, groups: Groups, acc: map<string, Value>)
    : (r: Result<map<string, Value>, Exception>)
    ensures r.Ok? <==> forall i | 0 <= i < |groups| :: GroupDecodes(parsers, groups[i])
    ensures r.Ok? ==> r.value.Keys == acc.Keys + Names(groups)
    decreases |groups|
  {
    if groups == [] then Ok(acc)
    else
      var (name, text) := groups[0];
      if name !in parsers then Err(KeyError)
      else match Decode(parsers[name], text)
        case Err(e) => Err(e)
        case Ok(v) =>
          var r := DecodeGroups(parsers, groups[1..], acc[name := v]);
          NamesCons(groups);
          AllDecodeCons(parsers, groups);
          r
  }

  /** The labels of a non-empty match: the first group's and the rest's. */
  lemma NamesCons(groups: Groups)
    requires groups != []
    ensures Names(groups) == {groups[0].0} + Names(groups[1..])
  {
    assert forall i | 1 <= i < |groups| :: groups[i] == groups[1..][i - 1];
    assert forall i | 0 <= i < |groups| - 1 :: groups[1..][i] == groups[i + 1];
  }

  /** Every group decodes exactly when the first does and every later one does. */
  lemma AllDecodeCons(parsers: map<string, Decoder>, groups: Groups)
    requires groups != []
    ensures (forall i | 0 <= i < |groups| :: GroupDecodes(parsers, groups[i])) <==>
      GroupDecodes(parsers, groups[0]) && forall i | 0 <= i < |groups[1..]| :: GroupDecodes(parsers, groups[1..][i])
  {
    assert forall i | 1 <= i < |groups| :: groups[i] == groups[1..][i - 1];
    assert forall i | 0 <= i < |groups| - 1 :: groups[1..][i] == groups[i + 1];
  }

  /**
   * Group `i` is the first that fails, with error `e`: every group before it
   * decodes, and it has no decoder (`KeyError`) or its decoder fails with `e`.
   */
  predicate FailsFirstAt(parsers: map<string, Decoder>, groups: Groups, i: int, e: Exception)
  {
    0 <= i < |groups| &&
    (forall j | 0 <= j < i :: GroupDecodes(parsers, groups[j])) &&
    (if groups[i].0 in parsers then Decode(parsers[groups[i].0], groups[i].1) == Err(e) else e == KeyError)
  }

  /** A failed decoding raises the error of the first group that fails. */
  lemma {:induction false} FirstFailingGroup(parsers: map<string, Decoder>, groups: Groups, acc: map<string, Value>)
    requires DecodeGroups(parsers, groups, acc).Err?
    ensures exists i :: FailsFirstAt(parsers, groups, i, DecodeGroups(parsers, groups, acc).error)
    decreases |groups|
  {
    var e := DecodeGroups(parsers, groups, acc).error;
    var (name, text) := groups[0];
    if name in parsers && Decode(parsers[name], text).Ok? {
      var v := Decode(parsers[name], text).value;
      var rest := groups[1..];
      assert DecodeGroups(parsers, groups, acc) == DecodeGroups(parsers, rest, acc[name := v]);
      FirstFailingGroup(parsers, rest, acc[name := v]);
      var i :| FailsFirstAt(parsers, rest, i, e);
      FailsLaterCons(parsers, groups, i, e);
    } else {
      assert FailsFirstAt(parsers, groups, 0, e);
    }
  }

  lemma FailsLaterCons(parsers: map<string, Decoder>, groups: Groups, i: int, e: Exception)
    requires groups != [] && GroupDecodes(parsers, groups[0]) && FailsFirstAt(parsers, groups[1..], i, e)
    ensures FailsFirstAt(parsers, groups, i + 1, e)
  {
    var rest := groups[1..];
    assert groups[i + 1] == rest[i];
    forall j | 0 <= j < i + 1
      ensures GroupDecodes(parsers, groups[j])
    {
      if j > 0 {
        assert groups[j] == rest[j - 1];
      }
    }
  }

  /** Group names are unique, as Python's regular expressions demand. */
  predicate UniqueNames(groups: Groups)
  {
    forall i, j | 0 <= i < j < |groups| :: groups[i].0 != groups[j].0
  }

  /** Each group's value is what its decoder makes of its text. */
  lemma {:induction false} DecodedValues(parsers: map<string, Decoder>, groups: Groups, acc: map<string, Value>)
    requires UniqueNames(groups)
    requires DecodeGroups(parsers, groups, acc).Ok?
    ensures forall i | 0 <= i < |groups| ::
      DecodeGroups(parsers, groups, acc).value[groups[i].0] == Decode(parsers[groups[i].0], groups[i].1).value
    ensures forall k | k in acc && k !in Names(groups) :: DecodeGroups(parsers, groups, acc).value[k] == acc[k]
    decreases |groups|
  {
    if groups != [] {
      var (name, text) := groups[0];
      var v := Decode(parsers[name], text).value;
      var rest := groups[1..];
      assert UniqueNames(rest) by {
        forall i, j | 0 <= i < j < |rest| ensures rest[i].0 != rest[j].0 {
          assert rest[i] == groups[i + 1] && rest[j] == groups[j + 1];
        }
      }
      DecodedValues(parsers, rest, acc[name := v]);
      var r := DecodeGroups(parsers, groups, acc).value;
      assert r == DecodeGroups(parsers, rest, acc[name := v]).value;
      assert name !in Names(rest) by {
        forall i | 0 <= i < |rest| ensures rest[i].0 != name {
          assert rest[i] == groups[i + 1];
        }
      }
      forall i | 0 <= i < |groups|
        ensures r[groups[i].0] == Decode(parsers[groups[i].0], groups[i].1).value
      {
        if i > 0 {
          assert groups[i] == rest[i - 1];
        }
      }
      forall k | k in acc && k !in Names(groups)
        ensures r[k] == acc[k]
      {
        assert k != name by { assert groups[0].0 == name; }
        assert k !in Names(rest) by {
          forall i | 0 <= i < |rest| ensures rest[i].0 != k {
            assert rest[i] == groups[i + 1];
          }
        }
      }
    }
  }

  /** `__call__` on the state of a parser, given what the engine reported. */
  function Respond(parsers: map<string, Decoder>, found: Option<Groups>): (r: Outcome)
    ensures r == NoMatch <==> found == None
  {
    match found
    case None => NoMatch
    case Some(groups) =>
      match DecodeGroups(parsers, groups, map[])
      case Err(e) => Raised(e)
      case Ok(values) => Decoded(values)
  }

  /** `parse_fstring(fstring, s)` for one iteration order of the entries. */
  function ParseSpec(t: string, order: seq<string>, engine: Engine, s: string): Outcome
  {
    match CompileSpec(t, order)
    case Err(e) => Raised(e)
    case Ok(c) => Respond(c.parsers, engine(c.pattern, s))
  }

  /** `FstringParser`: the compiled pattern, the decoder table, and the last match. */
  class FstringParser {
    var pattern: string
    var parserDict: map<string, Decoder>
    var lastMatch: Option<Groups>

    /** The object that `__init__` builds once the compiler has succeeded. */
    constructor (c: Compiled)
      ensures pattern == c.pattern && parserDict == c.parsers && lastMatch == None
    {
      pattern := c.pattern;
      parserDict := c.parsers;
      lastMatch := None;
    }

    /** `__call__`: match, remember the match, and decode its groups. */
    method Call(engine: Engine, s: string) returns (r: Outcome)
      modifies this
      ensures pattern == old(pattern) && parserDict == old(parserDict)
      ensures lastMatch == engine(pattern, s)
      ensures r == Respond(parserDict, lastMatch)
      ensures r.NoMatch? <==> lastMatch.None?
    {
      lastMatch := engine(pattern, s);
      if lastMatch.None? {
        return NoMatch;
      }
      var decoded := DecodeGroups(parserDict, lastMatch.value, map[]);
      if decoded.Err? {
        return Raised(decoded.error);
      }
      r := Decoded(decoded.value);
    }
  }

  /** `FstringParser(t)`: a fresh parser, or the exception the compiler raised. */
  method NewFstringParser(t: string, order: seq<string>) returns (r: Result<FstringParser, Exception>)
    requires IsSetOrder(order, FindAll(t))
    ensures r.Ok? <==> CompileSpec(t, order).Ok?
    ensures r.Err? ==> r.error == CompileSpec(t, order).error
    ensures r.Ok? ==> fresh(r.value) && r.value.lastMatch == None
    ensures r.Ok? ==> r.value.pattern == CompileSpec(t, order).value.pattern
    ensures r.Ok? ==> r.value.parserDict == CompileSpec(t, order).value.parsers
  {
    var compiled := GenerateRegexAndParsers(t, order);
    if compiled.Err? {
      return Err(compiled.error);
    }
    var parser := new FstringParser(compiled.value);
    r := Ok(parser);
  }

  /** `parse_fstring`: build a parser and call it once. */
  method ParseFstring(t: string, order: seq<string>, engine: Engine, s: string) returns (r: Outcome)
    requires IsSetOrder(order, FindAll(t))
    ensures r == ParseSpec(t, order, engine, s)
  {
    var made := NewFstringParser(t, order);
    if made.Err? {
      return Raised(made.error);
    }
    var parser := made.value;
    r := parser.Call(engine, s);
  }

  // ------------------------------------------------------------ one placeholder, end to end

  /**
   * A template with one placeholder `{name:spec}`: when the engine matches the
   * compiled pattern and reports the group's text, the result is that text decoded
   * by the spec's decoder, under the label.
   */
  lemma ParseOnePlaceholder(a: string, name: string, spec: string, b: string, regex: string, d: Decoder,
                            order: seq<string>, engine: Engine, s: string, text: string)
    requires '\n' !in a && '\n' !in name && '\n' !in spec && '\n' !in b
    requires '{' !in a && '{' !in b && '}' !in b && '{' !in name
    requires ':' !in name && ':' !in spec && '{' !in spec && '\\' !in spec
    requires EntryPatternAndDecoder(spec) == Ok(Entry(regex, d))
    requires IsSetOrder(order, FindAll(a + "{" + name + ":" + spec + "}" + b))
    requires engine("^" + Escape(a) + NamedGroup(name, regex) + Escape(b) + "$", s) == Some([(name, text)])
    ensures ParseSpec(a + "{" + name + ":" + spec + "}" + b, order, engine, s) ==
      match Decode(d, text)
      case Ok(v) => Decoded(map[name := v])
      case Err(e) => Raised(e)
  {
    EntryPatternHasNoEscapedBrace(spec);
    SinglePlaceholder(a, name, spec, b, regex, d, order);
    var parsers := map[name := d];
    var found := engine("^" + Escape(a) + NamedGroup(name, regex) + Escape(b) + "$", s);
    DecodeOneGroup(parsers, name, text);
    assert ParseSpec(a + "{" + name + ":" + spec + "}" + b, order, engine, s) == Respond(parsers, found);
  }

  /** A match with one group decodes that group alone. */
  lemma DecodeOneGroup(parsers: map<string, Decoder>, name: string, text: string)
    requires name in parsers
    ensures Respond(parsers, Some([(name, text)])) ==
      match Decode(parsers[name], text)
      case Ok(v) => Decoded(map[name := v])
      case Err(e) => Raised(e)
  {
    var groups := [(name, text)];
    assert groups[0] == (name, text);
    assert groups[1..] == [];
    assert Decode(parsers[name], text).Ok? ==>
      DecodeGroups(parsers, groups, map[]) == DecodeGroups(parsers, [], map[name := Decode(parsers[name], text).value]);
  }

  /** A template that does not compile raises what the compiler raised, whatever the string. */
  lemma CompileErrorIsRaised(t: string, order: seq<string>, engine: Engine, s: string)
    requires CompileSpec(t, order).Err?
    ensures ParseSpec(t, order, engine, s) == Raised(CompileSpec(t, order).error)
  {
  }

  /**
   * A template that compiles gives `None` exactly when the engine finds no match,
   * and otherwise a dictionary exactly when every group decodes.
   */
  lemma ParseOutcomes(t: string, order: seq<string>, engine: Engine, s: string)
    requires CompileSpec(t, order).Ok?
    ensures var c := CompileSpec(t, order).value;
      (ParseSpec(t, order, engine, s) == NoMatch <==> engine(c.pattern, s).None?) &&
      (ParseSpec(t, order, engine, s).Decoded? <==>
        engine(c.pattern, s).Some? && forall i | 0 <= i < |engine(c.pattern, s).value| ::
          GroupDecodes(c.parsers, engine(c.pattern, s).value[i]))
  {
  }
}
