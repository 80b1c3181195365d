/**
 * The compiler on a template of any number of lines with one placeholder each.
 *
 * While the two loops run, the pattern is a list of chunks: literal text the
 * loops leave alone, and escaped placeholders still to be rewritten. An escaped
 * placeholder `\{...\}` can start only where a pending chunk starts, so the
 * first loop's `replace(..., 1)` rewrites the first pending chunk of its entry
 * and the second loop's `replace` rewrites every pending chunk of its entry.
 */
module TemplateLayout {
  import opened Wrappers
  import opened Strings
  import opened FormatSpec
  import opened TemplateCompiler

  // ------------------------------------------------------------ chunks

  /** A piece of the pattern while the loops rewrite it. */
  datatype Chunk = Lit(text: string) | Pending(entry: string)

  function Text(c: Chunk): string
  {
    match c
    case Lit(s) => s
    case Pending(e) => Target(e)
  }

  /** The pattern the chunks spell. */
  function Flatten(cs: seq<Chunk>): string
    decreases |cs|
  {
    if cs == [] then [] else Text(cs[0]) + Flatten(cs[1..])
  }

  predicate BraceFree(s: string)
  {
    '{' !in s && '}' !in s
  }

  /**
   * A literal holds no escaped brace and does not start with `{`; a pending
   * chunk's entry holds no brace.
   */
  predicate GoodChunk(c: Chunk)
  {
    match c
    case Lit(s) => NoEscapedBrace(s) && (s == [] || s[0] != '{')
    case Pending(e) => BraceFree(e)
  }

  predicate GoodChunks(cs: seq<Chunk>)
  {
    forall i | 0 <= i < |cs| :: GoodChunk(cs[i])
  }

  lemma FlattenCons(c: Chunk, cs: seq<Chunk>)
    ensures Flatten([c] + cs) == Text(c) + Flatten(cs)
  {
    assert ([c] + cs)[1..] == cs;
  }

  lemma {:induction false} FlattenConcat(xs: seq<Chunk>, ys: seq<Chunk>)
    ensures Flatten(xs + ys) == Flatten(xs) + Flatten(ys)
    decreases |xs|
  {
    if xs == [] {
      assert xs + ys == ys;
    } else {
      assert (xs + ys)[1..] == xs[1..] + ys;
      FlattenConcat(xs[1..], ys);
    }
  }

  lemma FlattenThree(a: Chunk, b: Chunk, c: Chunk)
    ensures Flatten([a, b, c]) == Text(a) + Text(b) + Text(c)
  {
    assert [a, b, c][1..] == [b, c] && [b, c][1..] == [c] && [c][1..] == [];
    assert Flatten([c]) == Text(c) + Flatten([]) == Text(c);
    assert Flatten([b, c]) == Text(b) + Text(c);
  }

  /** The text of good chunks never starts with `{`. */
  lemma {:induction false} FlattenStart(cs: seq<Chunk>)
    requires GoodChunks(cs)
    ensures Flatten(cs) == [] || Flatten(cs)[0] != '{'
    decreases |cs|
  {
    if cs != [] {
      var t := Text(cs[0]);
      if t == [] {
        FlattenStart(cs[1..]);
      } else {
        if cs[0].Pending? {
          TargetShape(cs[0].entry);
        }
        assert Flatten(cs)[0] == t[0];
      }
    }
  }

  // ------------------------------------------------------------ where an escaped placeholder can start

  /** In the escaped placeholder of a brace-free entry, `{` is the second character only, `}` the last only. */
  lemma TargetBraces(e: string)
    requires BraceFree(e)
    ensures forall k | 0 <= k < |Target(e)| :: Target(e)[k] == '{' <==> k == 1
    ensures forall k | 0 <= k < |Target(e)| :: Target(e)[k] == '}' <==> k == |Target(e)| - 1
  {
    TargetShape(e);
    var x := Escape(e);
    EscapeKeepsChar(e, '{');
    EscapeKeepsChar(e, '}');
    var t := Target(e);
    forall k | 2 <= k < |t| - 2
      ensures t[k] == x[k - 2]
    {
    }
  }

  /** No escaped placeholder starts inside a literal. */
  lemma NoTargetInLit(s: string, rest: string, e: string)
    requires NoEscapedBrace(s) && (rest == [] || rest[0] != '{')
    ensures forall i | 0 <= i < |s| :: !OccursAt(s + rest, Target(e), i)
  {
    var t := Target(e);
    var w := s + rest;
    TargetShape(e);
    forall i | 0 <= i < |s|
      ensures !OccursAt(w, t, i)
    {
      assert !(w[i] == '\\' && i + 1 < |w| && w[i + 1] == '{') by {
        if i + 1 < |s| {
          assert w[i] == s[i] && w[i + 1] == s[i + 1];
        } else if i + 1 < |w| {
          assert w[i + 1] == rest[0];
        }
      }
      if i + |t| <= |w| {
        assert w[i..i + |t|][0] == w[i] && w[i..i + |t|][1] == w[i + 1];
      }
    }
  }

  /** An escaped placeholder found where another one starts is that one. */
  lemma TargetAtStart(e: string, e': string, rest: string)
    requires BraceFree(e) && BraceFree(e')
    ensures OccursAt(Target(e') + rest, Target(e), 0) ==> e == e'
  {
    var t, t' := Target(e), Target(e');
    var w := t' + rest;
    if OccursAt(w, t, 0) {
      TargetBraces(e);
      TargetBraces(e');
      TargetShape(e);
      TargetShape(e');
      assert w[..|t|] == t;
      assert |t| - 1 < |t'| ==> t'[|t| - 1] == w[|t| - 1] == t[|t| - 1] == '}';
      assert |t'| - 1 < |t| ==> t[|t'| - 1] == w[|t'| - 1] == t'[|t'| - 1] == '}';
      assert |t| == |t'|;
      assert t == t' by {
        assert w[..|t'|] == t';
      }
      assert Escape(e) == t[2..|t| - 2] && Escape(e') == t'[2..|t'| - 2];
      EscapeInjective(e, e');
    }
  }

  /** No escaped placeholder of `e` starts inside the escaped placeholder of another entry. */
  lemma NoOtherTarget(e': string, rest: string, e: string)
    requires BraceFree(e) && BraceFree(e') && e != e' && (rest == [] || rest[0] != '{')
    ensures forall i | 0 <= i < |Target(e')| :: !OccursAt(Target(e') + rest, Target(e), i)
  {
    var t, t' := Target(e), Target(e');
    var w := t' + rest;
    TargetShape(e);
    TargetBraces(e');
    TargetAtStart(e, e', rest);
    forall i | 1 <= i < |t'|
      ensures !OccursAt(w, t, i)
    {
      assert !(i + 1 < |w| && w[i + 1] == '{') by {
        if i + 1 < |t'| {
          assert w[i + 1] == t'[i + 1];
        } else if i + 1 < |w| {
          assert w[i + 1] == rest[0];
        }
      }
      if i + |t| <= |w| {
        assert w[i..i + |t|][1] == w[i + 1];
      }
    }
  }

  /** No escaped placeholder of `e` starts inside a chunk other than a pending `e`. */
  lemma UnmatchedChunk(c: Chunk, rest: string, e: string)
    requires GoodChunk(c) && BraceFree(e) && c != Pending(e) && (rest == [] || rest[0] != '{')
    ensures forall i | 0 <= i < |Text(c)| :: !OccursAt(Text(c) + rest, Target(e), i)
  {
    match c
    case Lit(s) => NoTargetInLit(s, rest, e);
    case Pending(e') => NoOtherTarget(e', rest, e);
  }

  // ------------------------------------------------------------ the two replacements on chunks

  /** Every pending `e` becomes the literal `r`. */
  function SubstAll(cs: seq<Chunk>, e: string, r: string): (res: seq<Chunk>)
    ensures |res| == |cs|
    ensures forall j | 0 <= j < |cs| :: res[j] == if cs[j] == Pending(e) then Lit(r) else cs[j]
    decreases |cs|
  {
    if cs == [] then [] else [if cs[0] == Pending(e) then Lit(r) else cs[0]] + SubstAll(cs[1..], e, r)
  }

  /** The index of the first pending `e`, or -1 when there is none. */
  function FirstPending(cs: seq<Chunk>, e: string): (k: int)
    ensures k == -1 <==> Pending(e) !in cs
    ensures k != -1 ==> 0 <= k < |cs| && cs[k] == Pending(e) && forall j | 0 <= j < k :: cs[j] != Pending(e)
    decreases |cs|
  {
    if cs == [] then -1
    else if cs[0] == Pending(e) then 0
    else
      var k := FirstPending(cs[1..], e);
      if k == -1 then -1 else k + 1
  }

  /** The first pending `e` becomes the literal `r`. */
  function SubstFirst(cs: seq<Chunk>, e: string, r: string): (res: seq<Chunk>)
    ensures |res| == |cs|
    ensures forall j | 0 <= j < |cs| :: res[j] == if j == FirstPending(cs, e) then Lit(r) else cs[j]
    decreases |cs|
  {
    if cs == [] then []
    else if cs[0] == Pending(e) then [Lit(r)] + cs[1..]
    else [cs[0]] + SubstFirst(cs[1..], e, r)
  }

  /** `str.replace` on the pattern rewrites exactly the pending chunks of the entry. */
  lemma {:induction false} ReplaceChunks(cs: seq<Chunk>, e: string, r: string)
    requires GoodChunks(cs) && BraceFree(e)
    ensures Replace(Flatten(cs), Target(e), r) == Flatten(SubstAll(cs, e, r))
    decreases |cs|
  {
    var t := Target(e);
    TargetShape(e);
    if cs != [] {
      var rest := Flatten(cs[1..]);
      var tail := SubstAll(cs[1..], e, r);
      var res := SubstAll(cs, e, r);
      assert res == [res[0]] + tail;
      FlattenCons(res[0], tail);
      ReplaceChunks(cs[1..], e, r);
      if cs[0] == Pending(e) {
        ReplaceAtStart(t, rest, r);
      } else {
        FlattenStart(cs[1..]);
        UnmatchedChunk(cs[0], rest, e);
        ReplaceCopiesUnmatched(Text(cs[0]), rest, t, r);
      }
    }
  }

  /** Past a leading text, an occurrence in the whole is an occurrence in the rest. */
  lemma OccursPastPrefix(x: string, y: string, pat: string, j: int)
    requires |x| <= j
    ensures OccursAt(x + y, pat, j) <==> OccursAt(y, pat, j - |x|)
  {
    if j + |pat| <= |x + y| {
      assert (x + y)[j..j + |pat|] == y[j - |x|..j - |x| + |pat|];
    }
  }

  /** The first occurrence is the one with none before it. */
  lemma FindIs(s: string, pat: string, g: int)
    requires OccursAt(s, pat, g) && forall i | 0 <= i < g :: !OccursAt(s, pat, i)
    ensures Find(s, pat) == g
  {
  }

  /** The replacement with count 1 when the pattern first occurs at `f`. */
  lemma ReplaceFirstFound(y: string, pat: string, rep: string, f: int)
    requires f == Find(y, pat) && f != -1
    ensures ReplaceFirst(y, pat, rep) == y[..f] + rep + y[f + |pat|..]
  {
  }

  lemma ReplaceFirstMissing(y: string, pat: string, rep: string)
    requires Find(y, pat) == -1
    ensures ReplaceFirst(y, pat, rep) == y
  {
  }

  /** No occurrence starts in `x`, nor in the first `n` places of `y`: none in the first `|x| + n` of `x + y`. */
  lemma NoOccurrenceJoined(x: string, y: string, pat: string, n: int)
    requires forall i | 0 <= i < |x| :: !OccursAt(x + y, pat, i)
    requires forall i | 0 <= i < n :: !OccursAt(y, pat, i)
    ensures forall i | 0 <= i < |x| + n :: !OccursAt(x + y, pat, i)
  {
    forall i | |x| <= i < |x| + n
      ensures !OccursAt(x + y, pat, i)
    {
      OccursPastPrefix(x, y, pat, i);
    }
  }

  /** No escaped placeholder of `e` starts inside chunks that hold no pending `e`. */
  lemma {:induction false} NoTargetInChunks(cs: seq<Chunk>, e: string, rest: string)
    requires GoodChunks(cs) && BraceFree(e) && Pending(e) !in cs && (rest == [] || rest[0] != '{')
    ensures forall i | 0 <= i < |Flatten(cs)| :: !OccursAt(Flatten(cs) + rest, Target(e), i)
    decreases |cs|
  {
    if cs != [] {
      var tail := cs[1..];
      var x, y := Text(cs[0]), Flatten(tail) + rest;
      assert cs == [cs[0]] + tail;
      NoTargetInChunks(tail, e, rest);
      FlattenStart(tail);
      UnmatchedChunk(cs[0], y, e);
      assert Flatten(cs) + rest == x + y;
      NoOccurrenceJoined(x, y, Target(e), |Flatten(tail)|);
    }
  }

  /** The chunks around one chunk. */
  lemma FlattenAround(xs: seq<Chunk>, c: Chunk, ys: seq<Chunk>)
    ensures Flatten(xs + [c] + ys) == Flatten(xs) + Text(c) + Flatten(ys)
  {
    FlattenConcat(xs + [c], ys);
    FlattenConcat(xs, [c]);
    FlattenCons(c, []);
    assert [c] + [] == [c];
  }

  lemma SplitAtChunk(cs: seq<Chunk>, k: nat)
    requires k < |cs|
    ensures cs == cs[..k] + [cs[k]] + cs[k + 1..]
  {
  }

  /** With no pending `e`, the replacement with count 1 changes nothing. */
  lemma ReplaceFirstNoPending(cs: seq<Chunk>, e: string, r: string)
    requires GoodChunks(cs) && BraceFree(e) && Pending(e) !in cs
    ensures ReplaceFirst(Flatten(cs), Target(e), r) == Flatten(cs) == Flatten(SubstFirst(cs, e, r))
  {
    var s, t := Flatten(cs), Target(e);
    NoTargetInChunks(cs, e, []);
    assert s + [] == s;
    TargetShape(e);
    assert !Occurs(s, t);
    ReplaceFirstMissing(s, t, r);
    assert SubstFirst(cs, e, r) == cs;
  }

  /** The replacement with count 1 when the pattern first occurs right after `x`. */
  lemma ReplaceFirstAfter(x: string, t: string, y: string, r: string)
    requires forall i | 0 <= i < |x| :: !OccursAt(x + (t + y), t, i)
    ensures ReplaceFirst(x + t + y, t, r) == x + r + y
  {
    var s := x + t + y;
    assert x + (t + y) == s;
    assert s[|x|..|x| + |t|] == t;
    FindIs(s, t, |x|);
    ReplaceFirstFound(s, t, r, |x|);
    assert s[..|x|] == x && s[|x| + |t|..] == y;
  }

  lemma SubstFirstAt(cs: seq<Chunk>, e: string, r: string, k: nat)
    requires k < |cs| && k == FirstPending(cs, e)
    ensures SubstFirst(cs, e, r) == cs[..k] + [Lit(r)] + cs[k + 1..]
    ensures Pending(e) !in cs[..k]
  {
  }

  /** The chunks before and after the first pending `e`, before and after it is rewritten. */
  lemma AroundFirstPending(cs: seq<Chunk>, e: string, r: string, k: nat)
    requires k < |cs| && k == FirstPending(cs, e)
    ensures Pending(e) !in cs[..k]
    ensures Flatten(cs) == Flatten(cs[..k]) + Target(e) + Flatten(cs[k + 1..])
    ensures Flatten(SubstFirst(cs, e, r)) == Flatten(cs[..k]) + r + Flatten(cs[k + 1..])
  {
    SplitAtChunk(cs, k);
    SubstFirstAt(cs, e, r, k);
    FlattenAround(cs[..k], Pending(e), cs[k + 1..]);
    FlattenAround(cs[..k], Lit(r), cs[k + 1..]);
  }

  /** With a first pending `e` at `k`, the replacement with count 1 rewrites that chunk. */
  lemma ReplaceFirstAtPending(cs: seq<Chunk>, e: string, r: string, k: nat)
    requires GoodChunks(cs) && BraceFree(e) && k < |cs| && k == FirstPending(cs, e)
    ensures ReplaceFirst(Flatten(cs), Target(e), r) == Flatten(SubstFirst(cs, e, r))
  {
    AroundFirstPending(cs, e, r, k);
    var pre, t, post := cs[..k], Target(e), Flatten(cs[k + 1..]);
    assert GoodChunks(pre);
    TargetShape(e);
    NoTargetInChunks(pre, e, t + post);
    ReplaceFirstAfter(Flatten(pre), t, post, r);
  }

  /** `str.replace(..., 1)` on the pattern rewrites exactly the first pending chunk of the entry. */
  lemma ReplaceFirstChunks(cs: seq<Chunk>, e: string, r: string)
    requires GoodChunks(cs) && BraceFree(e)
    ensures ReplaceFirst(Flatten(cs), Target(e), r) == Flatten(SubstFirst(cs, e, r))
  {
    var k := FirstPending(cs, e);
    if k == -1 {
      ReplaceFirstNoPending(cs, e, r);
    } else {
      ReplaceFirstAtPending(cs, e, r, k);
    }
  }

  // ------------------------------------------------------------ the loops on chunks

  /** The named group the first loop writes for an entry it accepts. */
  function Group(e: string): string
  {
    var parts := Split(e, ':');
    if |parts| == 2 && EntryPatternAndDecoder(parts[1]).Ok? then
      NamedGroup(parts[0], EntryPatternAndDecoder(parts[1]).value.pattern)
    else NamedGroup(e, AnyText)
  }

  /** The back-reference the second loop writes for an entry. */
  function BackRef(e: string): string
  {
    BackReference(Label(e))
  }

  /** An entry both loops accept, whose group and back-reference hold no escaped brace. */
  predicate CleanEntry(e: string)
  {
    BraceFree(e) && ValidEntry(e) && NoEscapedBrace(Group(e)) && NoEscapedBrace(BackRef(e))
  }

  lemma CleanTexts(e: string)
    requires CleanEntry(e)
    ensures ':' in e
    ensures GoodChunk(Lit(Group(e))) && GoodChunk(Lit(BackRef(e)))
  {
    assert Count(e, ':') == 1;
  }

  lemma FirstStepChunks(cs: seq<Chunk>, m: map<string, Decoder>, e: string)
    requires GoodChunks(cs) && CleanEntry(e)
    ensures FirstStep(Compiled(Flatten(cs), m), e).Ok?
    ensures FirstStep(Compiled(Flatten(cs), m), e).value.pattern == Flatten(SubstFirst(cs, e, Group(e)))
  {
    CleanTexts(e);
    ReplaceFirstChunks(cs, e, Group(e));
  }

  /** The first loop's rounds from `i` on, on chunks. */
  function FirstRounds(cs: seq<Chunk>, order: seq<string>, i: nat): seq<Chunk>
    requires i <= |order|
    decreases |order| - i
  {
    if i == |order| then cs else FirstRounds(SubstFirst(cs, order[i], Group(order[i])), order, i + 1)
  }

  /** The second loop's rounds from `i` on, on chunks. */
  function SecondRounds(cs: seq<Chunk>, order: seq<string>, i: nat): seq<Chunk>
    requires i <= |order|
    decreases |order| - i
  {
    if i == |order| then cs else SecondRounds(SubstAll(cs, order[i], BackRef(order[i])), order, i + 1)
  }

  lemma {:induction false} FirstPassOnChunks(cs: seq<Chunk>, m: map<string, Decoder>, order: seq<string>, i: nat)
    requires i <= |order| && GoodChunks(cs)
    requires forall k | i <= k < |order| :: CleanEntry(order[k])
    ensures FirstPass(Compiled(Flatten(cs), m), order, i).Ok?
    ensures FirstPass(Compiled(Flatten(cs), m), order, i).value.pattern == Flatten(FirstRounds(cs, order, i))
    ensures GoodChunks(FirstRounds(cs, order, i))
    decreases |order| - i
  {
    if i < |order| {
      var e := order[i];
      FirstStepChunks(cs, m, e);
      CleanTexts(e);
      var c' := FirstStep(Compiled(Flatten(cs), m), e).value;
      var cs' := SubstFirst(cs, e, Group(e));
      assert c' == Compiled(Flatten(cs'), c'.parsers);
      FirstPassOnChunks(cs', c'.parsers, order, i + 1);
    }
  }

  lemma {:induction false} SecondPassOnChunks(cs: seq<Chunk>, order: seq<string>, i: nat)
    requires i <= |order| && GoodChunks(cs)
    requires forall k | i <= k < |order| :: CleanEntry(order[k])
    ensures SecondPass(Flatten(cs), order, i) == Ok(Flatten(SecondRounds(cs, order, i)))
    decreases |order| - i
  {
    if i < |order| {
      var e := order[i];
      CleanTexts(e);
      ReplaceChunks(cs, e, BackRef(e));
      var cs' := SubstAll(cs, e, BackRef(e));
      assert SecondStep(Flatten(cs), e) == Ok(Flatten(cs'));
      SecondPassOnChunks(cs', order, i + 1);
    }
  }

  // ------------------------------------------------------------ what the rounds leave, chunk by chunk

  /** Chunk `j` after the first loop's rounds before `i`: a first pending chunk of a visited entry is its group. */
  function AfterFirst(cs0: seq<Chunk>, order: seq<string>, i: nat, j: nat): Chunk
    requires i <= |order| && j < |cs0|
  {
    if cs0[j].Pending? && cs0[j].entry in order[..i] && j == FirstPending(cs0, cs0[j].entry) then
      Lit(Group(cs0[j].entry))
    else cs0[j]
  }

  /** Chunk `j` after the second loop's rounds before `i`: a pending chunk of a visited entry is its back-reference. */
  function AfterSecond(cs1: seq<Chunk>, order: seq<string>, i: nat, j: nat): Chunk
    requires i <= |order| && j < |cs1|
  {
    if cs1[j].Pending? && cs1[j].entry in order[..i] then Lit(BackRef(cs1[j].entry)) else cs1[j]
  }

  /** Two chunk lists with the same pending `e` chunks have the same first one. */
  lemma {:induction false} SameFirstPending(cs: seq<Chunk>, cs0: seq<Chunk>, e: string)
    requires |cs| == |cs0| && forall j | 0 <= j < |cs| :: cs[j] == Pending(e) <==> cs0[j] == Pending(e)
    ensures FirstPending(cs, e) == FirstPending(cs0, e)
  {
    var k, k0 := FirstPending(cs, e), FirstPending(cs0, e);
    assert k == -1 <==> k0 == -1 by {
      assert Pending(e) in cs ==> Pending(e) in cs0;
      assert Pending(e) in cs0 ==> Pending(e) in cs;
    }
    if k != -1 {
      assert cs0[k] == Pending(e) && cs[k0] == Pending(e);
      assert k == k0;
    }
  }

  lemma {:induction false} FirstRoundsChunks(cs0: seq<Chunk>, cs: seq<Chunk>, order: seq<string>, i: nat)
    requires i <= |order| && Distinct(order)
    requires |cs| == |cs0| && forall j | 0 <= j < |cs0| :: cs[j] == AfterFirst(cs0, order, i, j)
    ensures |FirstRounds(cs, order, i)| == |cs0|
    ensures forall j | 0 <= j < |cs0| :: FirstRounds(cs, order, i)[j] == AfterFirst(cs0, order, |order|, j)
    decreases |order| - i
  {
    if i < |order| {
      var e := order[i];
      assert e !in order[..i];
      assert order[..i + 1] == order[..i] + [e];
      forall j | 0 <= j < |cs|
        ensures cs[j] == Pending(e) <==> cs0[j] == Pending(e)
      {
      }
      SameFirstPending(cs, cs0, e);
      var cs' := SubstFirst(cs, e, Group(e));
      forall j | 0 <= j < |cs0|
        ensures cs'[j] == AfterFirst(cs0, order, i + 1, j)
      {
      }
      FirstRoundsChunks(cs0, cs', order, i + 1);
    }
  }

  lemma {:induction false} SecondRoundsChunks(cs1: seq<Chunk>, cs: seq<Chunk>, order: seq<string>, i: nat)
    requires i <= |order| && Distinct(order)
    requires |cs| == |cs1| && forall j | 0 <= j < |cs1| :: cs[j] == AfterSecond(cs1, order, i, j)
    ensures |SecondRounds(cs, order, i)| == |cs1|
    ensures forall j | 0 <= j < |cs1| :: SecondRounds(cs, order, i)[j] == AfterSecond(cs1, order, |order|, j)
    decreases |order| - i
  {
    if i < |order| {
      var e := order[i];
      assert e !in order[..i];
      assert order[..i + 1] == order[..i] + [e];
      var cs' := SubstAll(cs, e, BackRef(e));
      forall j | 0 <= j < |cs1|
        ensures cs'[j] == AfterSecond(cs1, order, i + 1, j)
      {
      }
      SecondRoundsChunks(cs1, cs', order, i + 1);
    }
  }

  // ------------------------------------------------------------ the finished pattern

  /**
   * The pattern once both loops are done: the first pending chunk of each entry
   * becomes its named group and every later one a back-reference; `seen` holds
   * the entries met before.
   */
  function Rendered(cs: seq<Chunk>, seen: set<string>): string
    decreases |cs|
  {
    if cs == [] then [] else Render(cs[0], seen) + Rendered(cs[1..], SeenAfter(cs[0], seen))
  }

  /** One chunk of the finished pattern, given the entries met before it. */
  function Render(c: Chunk, seen: set<string>): string
  {
    match c
    case Lit(s) => s
    case Pending(e) => if e in seen then BackRef(e) else Group(e)
  }

  function SeenAfter(c: Chunk, seen: set<string>): set<string>
  {
    if c.Pending? then seen + {c.entry} else seen
  }

  /** The entries of the pending chunks of `cs`. */
  function Seen(cs: seq<Chunk>): set<string>
  {
    set j | 0 <= j < |cs| && cs[j].Pending? :: cs[j].entry
  }

  /** Chunk `j` once both loops are done. */
  function Resolved(cs0: seq<Chunk>, j: nat): Chunk
    requires j < |cs0|
  {
    match cs0[j]
    case Lit(_) => cs0[j]
    case Pending(e) => if j == FirstPending(cs0, e) then Lit(Group(e)) else Lit(BackRef(e))
  }

  lemma FirstPendingIsUnseen(cs0: seq<Chunk>, k: nat)
    requires k < |cs0| && cs0[k].Pending?
    ensures k == FirstPending(cs0, cs0[k].entry) <==> cs0[k].entry !in Seen(cs0[..k])
  {
    var e := cs0[k].entry;
    var f := FirstPending(cs0, e);
    if e in Seen(cs0[..k]) {
      var j :| 0 <= j < k && cs0[..k][j].Pending? && cs0[..k][j].entry == e;
      assert cs0[j] == Pending(e);
    }
    if f != k {
      assert 0 <= f < k && cs0[..k][f] == Pending(e);
    }
  }

  lemma ResolvedIsRendered(cs0: seq<Chunk>, k: nat)
    requires k < |cs0|
    ensures Text(Resolved(cs0, k)) == Render(cs0[k], Seen(cs0[..k]))
  {
    if cs0[k].Pending? {
      FirstPendingIsUnseen(cs0, k);
    }
  }

  lemma SeenStep(cs0: seq<Chunk>, k: nat)
    requires k < |cs0|
    ensures Seen(cs0[..k + 1]) == SeenAfter(cs0[k], Seen(cs0[..k]))
  {
    var p, q := cs0[..k], cs0[..k + 1];
    assert forall j | 0 <= j < k :: q[j] == p[j];
    assert q[k] == cs0[k];
  }

  lemma RenderedFrom(cs0: seq<Chunk>, k: nat, seen: set<string>)
    requires k < |cs0|
    ensures Rendered(cs0[k..], seen) == Render(cs0[k], seen) + Rendered(cs0[k + 1..], SeenAfter(cs0[k], seen))
  {
    assert cs0[k..][0] == cs0[k] && cs0[k..][1..] == cs0[k + 1..];
  }

  lemma FlattenFrom(cs: seq<Chunk>, k: nat)
    requires k < |cs|
    ensures Flatten(cs[k..]) == Text(cs[k]) + Flatten(cs[k + 1..])
  {
    assert cs[k..][0] == cs[k] && cs[k..][1..] == cs[k + 1..];
  }

  lemma {:induction false} RenderedSuffix(cs0: seq<Chunk>, cs2: seq<Chunk>, k: nat)
    requires k <= |cs0| == |cs2|
    requires forall j | 0 <= j < |cs0| :: cs2[j] == Resolved(cs0, j)
    ensures Flatten(cs2[k..]) == Rendered(cs0[k..], Seen(cs0[..k]))
    decreases |cs0| - k
  {
    if k < |cs0| {
      RenderedSuffix(cs0, cs2, k + 1);
      SeenStep(cs0, k);
      FlattenFrom(cs2, k);
      RenderedFrom(cs0, k, Seen(cs0[..k]));
      ResolvedIsRendered(cs0, k);
    }
  }

  lemma ResolvedAt(cs0: seq<Chunk>, cs1: seq<Chunk>, cs2: seq<Chunk>, order: seq<string>, j: nat)
    requires j < |cs0| == |cs1| == |cs2|
    requires cs1[j] == AfterFirst(cs0, order, |order|, j) && cs2[j] == AfterSecond(cs1, order, |order|, j)
    requires cs0[j].Pending? ==> cs0[j].entry in order
    ensures cs2[j] == Resolved(cs0, j)
  {
    assert order[..|order|] == order;
  }

  /** After both loops every chunk is resolved. */
  lemma BothRoundsResolve(cs0: seq<Chunk>, order: seq<string>)
    requires Distinct(order)
    requires forall j | 0 <= j < |cs0| :: cs0[j].Pending? ==> cs0[j].entry in order
    ensures var cs2 := SecondRounds(FirstRounds(cs0, order, 0), order, 0);
      |cs2| == |cs0| && forall j | 0 <= j < |cs0| :: cs2[j] == Resolved(cs0, j)
  {
    var cs1 := FirstRounds(cs0, order, 0);
    assert order[..0] == [];
    FirstRoundsChunks(cs0, cs0, order, 0);
    SecondRoundsChunks(cs1, cs1, order, 0);
    var cs2 := SecondRounds(cs1, order, 0);
    forall j | 0 <= j < |cs0|
      ensures cs2[j] == Resolved(cs0, j)
    {
      ResolvedAt(cs0, cs1, cs2, order, j);
    }
  }

  lemma RenderedWhole(cs0: seq<Chunk>, cs2: seq<Chunk>)
    requires |cs0| == |cs2|
    requires forall j | 0 <= j < |cs0| :: cs2[j] == Resolved(cs0, j)
    ensures Flatten(cs2) == Rendered(cs0, {})
  {
    RenderedSuffix(cs0, cs2, 0);
    assert cs0[..0] == [];
    NothingSeen();
    assert cs0[0..] == cs0 && cs2[0..] == cs2;
  }

  lemma NothingSeen()
    ensures Seen([]) == {}
  {
  }

  /**
   * Both loops on a list of good chunks whose pending entries are exactly the
   * distinct, clean entries of `order`: the pattern the chunks spell compiles to
   * the rendered pattern.
   */
  lemma LoopsOnChunks(cs0: seq<Chunk>, order: seq<string>)
    requires GoodChunks(cs0) && Distinct(order)
    requires forall k | 0 <= k < |order| :: CleanEntry(order[k])
    requires forall j | 0 <= j < |cs0| :: cs0[j].Pending? ==> cs0[j].entry in order
    ensures FirstPass(Compiled(Flatten(cs0), map[]), order, 0).Ok?
    ensures SecondPass(FirstPass(Compiled(Flatten(cs0), map[]), order, 0).value.pattern, order, 0) ==
      Ok(Rendered(cs0, {}))
  {
    FirstPassOnChunks(cs0, map[], order, 0);
    var cs1 := FirstRounds(cs0, order, 0);
    SecondPassOnChunks(cs1, order, 0);
    BothRoundsResolve(cs0, order);
    RenderedWhole(cs0, SecondRounds(cs1, order, 0));
  }

  // ------------------------------------------------------------ templates of placeholder lines

  /** One line of a template: a placeholder `{name:spec}` between two texts. */
  datatype PlaceholderLine = PlaceholderLine(before: string, name: string, spec: string, after: string)

  function EntryOf(l: PlaceholderLine): string
  {
    l.name + ":" + l.spec
  }

  function LineText(l: PlaceholderLine): string
  {
    l.before + "{" + EntryOf(l) + "}" + l.after
  }

  function LineTexts(ls: seq<PlaceholderLine>): (r: seq<string>)
    ensures |r| == |ls|
    decreases |ls|
  {
    if ls == [] then [] else [LineText(ls[0])] + LineTexts(ls[1..])
  }

  /** The template: the lines joined by newlines. */
  function TemplateOf(ls: seq<PlaceholderLine>): string
  {
    Join(LineTexts(ls), '\n')
  }

  function EntriesOf(ls: seq<PlaceholderLine>): seq<string>
    decreases |ls|
  {
    if ls == [] then [] else [EntryOf(ls[0])] + EntriesOf(ls[1..])
  }

  /**
   * A line the model covers: no newline, no brace in the texts, the label or the
   * spec, one `:`, no backslash in the spec, and a spec some rule accepts.
   */
  predicate GoodLine(l: PlaceholderLine)
  {
    '\n' !in l.before && '\n' !in l.name && '\n' !in l.spec && '\n' !in l.after &&
    BraceFree(l.before) && BraceFree(l.after) && BraceFree(l.name) && BraceFree(l.spec) &&
    ':' !in l.name && ':' !in l.spec && '\\' !in l.spec &&
    EntryPatternAndDecoder(l.spec).Ok?
  }

  /** The chunks of one escaped line. */
  function LineChunks(l: PlaceholderLine): seq<Chunk>
  {
    [Lit(Escape(l.before)), Pending(EntryOf(l)), Lit(Escape(l.after))]
  }

  /** The chunks of the escaped lines, with the escaped newlines between them. */
  function BodyChunks(ls: seq<PlaceholderLine>): seq<Chunk>
    decreases |ls|
  {
    if ls == [] then []
    else if |ls| == 1 then LineChunks(ls[0])
    else LineChunks(ls[0]) + [Lit(Escape("\n"))] + BodyChunks(ls[1..])
  }

  /** The anchored, escaped template as chunks. */
  function Layout(ls: seq<PlaceholderLine>): seq<Chunk>
  {
    [Lit("^")] + BodyChunks(ls) + [Lit("$")]
  }

  /** The group and back-reference of a line's entry use its label and its spec's sub-pattern. */
  lemma LineRewrites(l: PlaceholderLine)
    requires GoodLine(l)
    ensures Label(EntryOf(l)) == l.name
    ensures Group(EntryOf(l)) == NamedGroup(l.name, EntryPatternAndDecoder(l.spec).value.pattern)
    ensures BackRef(EntryOf(l)) == BackReference(l.name)
    ensures CleanEntry(EntryOf(l))
  {
    SplitLabelSpec(l.name, l.spec);
    var regex := EntryPatternAndDecoder(l.spec).value.pattern;
    EntryPatternHasNoEscapedBrace(l.spec);
    var open := "(?P<" + l.name + ">";
    NoEscapedBraceAround(open, regex, ")");
    assert NamedGroup(l.name, regex) == open + regex + ")";
    BraceFreeHasNoEscapedBrace(BackReference(l.name));
  }

  lemma LineIsEscaped(l: PlaceholderLine)
    ensures Flatten(LineChunks(l)) == Escape(LineText(l))
  {
    FlattenThree(Lit(Escape(l.before)), Pending(EntryOf(l)), Lit(Escape(l.after)));
    EscapeAround(l.before, EntryOf(l), l.after);
  }

  lemma TemplateCons(ls: seq<PlaceholderLine>)
    requires |ls| > 1
    ensures TemplateOf(ls) == LineText(ls[0]) + "\n" + TemplateOf(ls[1..])
  {
    var texts := LineTexts(ls);
    assert texts == [LineText(ls[0])] + LineTexts(ls[1..]);
    assert texts[0] == LineText(ls[0]) && texts[1..] == LineTexts(ls[1..]);
  }

  lemma TemplateOne(ls: seq<PlaceholderLine>)
    requires |ls| == 1
    ensures TemplateOf(ls) == LineText(ls[0])
  {
    assert LineTexts(ls) == [LineText(ls[0])] + LineTexts(ls[1..]);
  }

  lemma BodyCons(ls: seq<PlaceholderLine>)
    requires |ls| > 1
    ensures Flatten(BodyChunks(ls)) == Flatten(LineChunks(ls[0])) + Escape("\n") + Flatten(BodyChunks(ls[1..]))
  {
    FlattenAround(LineChunks(ls[0]), Lit(Escape("\n")), BodyChunks(ls[1..]));
  }

  lemma EscapeAroundNewline(a: string, b: string)
    ensures Escape(a + "\n" + b) == Escape(a) + Escape("\n") + Escape(b)
  {
    EscapeConcat(a + "\n", b);
    EscapeConcat(a, "\n");
  }

  lemma {:induction false} BodyIsEscaped(ls: seq<PlaceholderLine>)
    requires ls != []
    ensures Flatten(BodyChunks(ls)) == Escape(TemplateOf(ls))
    decreases |ls|
  {
    LineIsEscaped(ls[0]);
    if |ls| == 1 {
      TemplateOne(ls);
    } else {
      BodyIsEscaped(ls[1..]);
      TemplateCons(ls);
      BodyCons(ls);
      EscapeAroundNewline(LineText(ls[0]), TemplateOf(ls[1..]));
    }
  }

  lemma LayoutIsAnchored(ls: seq<PlaceholderLine>)
    requires ls != []
    ensures Flatten(Layout(ls)) == Anchored(TemplateOf(ls))
  {
    BodyIsEscaped(ls);
    FlattenConcat([Lit("^")] + BodyChunks(ls), [Lit("$")]);
    FlattenConcat([Lit("^")], BodyChunks(ls));
  }

  /** An escaped text without braces is a good literal. */
  lemma EscapedIsGood(t: string)
    requires BraceFree(t)
    ensures GoodChunk(Lit(Escape(t)))
  {
    EscapeKeepsChar(t, '{');
    BraceFreeHasNoEscapedBrace(Escape(t));
  }

  lemma LineIsGood(l: PlaceholderLine)
    requires GoodLine(l)
    ensures forall c | c in LineChunks(l) :: GoodChunk(c) && (c.Pending? ==> c.entry == EntryOf(l))
  {
    EscapedIsGood(l.before);
    EscapedIsGood(l.after);
    assert BraceFree(EntryOf(l));
  }

  /** Every chunk of the layout is good, and every pending one holds an entry of a line. */
  lemma {:induction false} BodyIsGood(ls: seq<PlaceholderLine>)
    requires forall i | 0 <= i < |ls| :: GoodLine(ls[i])
    ensures forall c | c in BodyChunks(ls) :: GoodChunk(c) && (c.Pending? ==> c.entry in EntriesOf(ls))
    decreases |ls|
  {
    if ls != [] {
      LineIsGood(ls[0]);
      assert EntriesOf(ls) == [EntryOf(ls[0])] + EntriesOf(ls[1..]);
      if |ls| > 1 {
        BodyIsGood(ls[1..]);
        EscapedIsGood("\n");
        var nl := Lit(Escape("\n"));
        forall c | c in BodyChunks(ls)
          ensures c in LineChunks(ls[0]) || c == nl || c in BodyChunks(ls[1..])
        {
        }
      }
    }
  }

  /** `re.findall` on the template finds the lines' entries, one per line. */
  lemma {:induction false} EntriesOfTemplate(ls: seq<PlaceholderLine>)
    requires ls != [] && forall i | 0 <= i < |ls| :: GoodLine(ls[i])
    ensures FindAll(TemplateOf(ls)) == EntriesOf(ls)
  {
    forall i | 0 <= i < |ls|
      ensures '\n' !in LineTexts(ls)[i]
    {
      LineTextAt(ls, i);
    }
    SplitJoinedPieces(LineTexts(ls), '\n');
    LineEntries(ls);
  }

  lemma {:induction false} LineTextAt(ls: seq<PlaceholderLine>, i: nat)
    requires i < |ls| && GoodLine(ls[i])
    ensures LineTexts(ls)[i] == LineText(ls[i]) && '\n' !in LineText(ls[i])
    decreases i
  {
    if i > 0 {
      LineTextAt(ls[1..], i - 1);
    }
  }

  lemma {:induction false} LineEntries(ls: seq<PlaceholderLine>)
    requires forall i | 0 <= i < |ls| :: GoodLine(ls[i])
    ensures EntriesOfLines(LineTexts(ls)) == EntriesOf(ls)
    decreases |ls|
  {
    if ls != [] {
      var l := ls[0];
      LineEntryOfPlaceholder(l.before, EntryOf(l), l.after);
      assert LineTexts(ls)[0] == LineText(l) && LineTexts(ls)[1..] == LineTexts(ls[1..]);
      LineEntries(ls[1..]);
    }
  }

  lemma EntriesAreClean(ls: seq<PlaceholderLine>, order: seq<string>)
    requires forall i | 0 <= i < |ls| :: GoodLine(ls[i])
    requires forall e :: e in order ==> e in EntriesOf(ls)
    ensures forall k | 0 <= k < |order| :: CleanEntry(order[k])
  {
    forall k | 0 <= k < |order|
      ensures CleanEntry(order[k])
    {
      var i := EntryLine(ls, order[k]);
      LineRewrites(ls[i]);
    }
  }

  lemma LayoutIsGood(ls: seq<PlaceholderLine>, order: seq<string>)
    requires forall i | 0 <= i < |ls| :: GoodLine(ls[i])
    requires forall e :: e in EntriesOf(ls) ==> e in order
    ensures GoodChunks(Layout(ls))
    ensures forall j | 0 <= j < |Layout(ls)| :: Layout(ls)[j].Pending? ==> Layout(ls)[j].entry in order
  {
    var cs0 := Layout(ls);
    BodyIsGood(ls);
    forall j | 0 <= j < |cs0|
      ensures GoodChunk(cs0[j]) && (cs0[j].Pending? ==> cs0[j].entry in order)
    {
      if 0 < j < |cs0| - 1 {
        assert cs0[j] == BodyChunks(ls)[j - 1];
      }
    }
  }

  /** Both loops on the anchored template, once its chunks are known. */
  lemma PassesOnAnchored(t: string, cs0: seq<Chunk>, order: seq<string>)
    requires Flatten(cs0) == Anchored(t)
    requires GoodChunks(cs0) && Distinct(order)
    requires forall k | 0 <= k < |order| :: CleanEntry(order[k])
    requires forall j | 0 <= j < |cs0| :: cs0[j].Pending? ==> cs0[j].entry in order
    ensures FirstPass(Compiled(Anchored(t), map[]), order, 0).Ok?
    ensures SecondPass(FirstPass(Compiled(Anchored(t), map[]), order, 0).value.pattern, order, 0) == Ok(Rendered(cs0, {}))
  {
    LoopsOnChunks(cs0, order);
  }

  lemma CompileSpecOfPasses(t: string, order: seq<string>, r: string)
    requires FirstPass(Compiled(Anchored(t), map[]), order, 0).Ok?
    requires SecondPass(FirstPass(Compiled(Anchored(t), map[]), order, 0).value.pattern, order, 0) == Ok(r)
    ensures CompileSpec(t, order).Ok? && CompileSpec(t, order).value.pattern == r
  {
  }

  lemma CompileSpecRendered(t: string, cs0: seq<Chunk>, order: seq<string>, r: string)
    requires r == Rendered(cs0, {})
    requires FirstPass(Compiled(Anchored(t), map[]), order, 0).Ok?
    requires SecondPass(FirstPass(Compiled(Anchored(t), map[]), order, 0).value.pattern, order, 0) == Ok(r)
    ensures CompileSpec(t, order).Ok? && CompileSpec(t, order).value.pattern == Rendered(cs0, {})
  {
    CompileSpecOfPasses(t, order, r);
  }

  /** Both loops on the template of the lines. */
  lemma PassesOnLines(ls: seq<PlaceholderLine>, order: seq<string>)
    requires ls != [] && forall i | 0 <= i < |ls| :: GoodLine(ls[i])
    requires IsSetOrder(order, FindAll(TemplateOf(ls)))
    ensures FindAll(TemplateOf(ls)) == EntriesOf(ls)
    ensures FirstPass(Compiled(Anchored(TemplateOf(ls)), map[]), order, 0).Ok?
    ensures SecondPass(FirstPass(Compiled(Anchored(TemplateOf(ls)), map[]), order, 0).value.pattern, order, 0) ==
      Ok(Rendered(Layout(ls), {}))
  {
    EntriesOfTemplate(ls);
    LayoutIsAnchored(ls);
    var entries := EntriesOf(ls);
    assert Distinct(order) && forall e :: e in order <==> e in entries;
    EntriesAreClean(ls, order);
    LayoutIsGood(ls, order);
    PassesOnAnchored(TemplateOf(ls), Layout(ls), order);
  }

  /**
   * The compiler on any template of one or more lines with one placeholder
   * `{name:spec}` each, for every iteration order of the entries: compilation
   * succeeds, and the pattern is `^`, the escaped lines with each entry's first
   * placeholder replaced by its named group `(?P<name>regex)` and each later one
   * by the back-reference `(?P=name)`, then `$`.
   */
  lemma CompileLines(ls: seq<PlaceholderLine>, order: seq<string>)
    requires ls != [] && forall i | 0 <= i < |ls| :: GoodLine(ls[i])
    requires IsSetOrder(order, FindAll(TemplateOf(ls)))
    ensures CompileSpec(TemplateOf(ls), order).Ok?
    ensures CompileSpec(TemplateOf(ls), order).value.pattern == Rendered(Layout(ls), {})
  {
    PassesOnLines(ls, order);
    CompileSpecRendered(TemplateOf(ls), Layout(ls), order, Rendered(Layout(ls), {}));
  }

  /** An entry of the template is the entry of one of its lines. */
  lemma {:induction false} EntryLine(ls: seq<PlaceholderLine>, e: string) returns (i: nat)
    requires e in EntriesOf(ls)
    ensures i < |ls| && EntryOf(ls[i]) == e
    decreases |ls|
  {
    if EntryOf(ls[0]) == e {
      i := 0;
    } else {
      assert e in EntriesOf(ls[1..]);
      var k := EntryLine(ls[1..], e);
      i := k + 1;
    }
  }
}
