/**
 * The Python string primitives the compiler is built from:
 * `in` on strings, `str.find`, `str.replace` (all occurrences and with count 1),
 * `str.split` on one separator, `str.strip`, `str.isdigit` and `re.escape`.
 * Characters are compared exactly; digits and whitespace are the ASCII ones.
 */
module Strings {

  // ---------------------------------------------------------------- characters

  predicate IsDigit(c: char) { '0' <= c <= '9' }

  predicate AllDigits(s: string) { forall i | 0 <= i < |s| :: IsDigit(s[i]) }

  /** `s.isdigit()`: non-empty and made of digits only. */
  predicate IsDigitString(s: string) { |s| > 0 && AllDigits(s) }

  /** The ASCII characters `str.strip()` removes (those for which `str.isspace` holds). */
  predicate IsWhitespace(c: char)
  {
    c == ' ' || c == '\t' || c == '\n' || c == '\r' || c == '\U{0B}' || c == '\U{0C}' ||
    c == '\U{1C}' || c == '\U{1D}' || c == '\U{1E}' || c == '\U{1F}'
  }

  // ------------------------------------------------------------- substrings

  /** `pat` occurs in `s` at index `i`. */
  predicate OccursAt(s: string, pat: string, i: int)
  {
    0 <= i && i + |pat| <= |s| && s[i..i + |pat|] == pat
  }

  /** `pat in s`. */
  predicate Occurs(s: string, pat: string)
  {
    exists i | 0 <= i <= |s| - |pat| :: OccursAt(s, pat, i)
  }

  /** `s.find(pat)`: the first index where `pat` occurs, or -1. */
  function Find(s: string, pat: string): (r: int)
    ensures r == -1 <==> !Occurs(s, pat)
    ensures r != -1 ==> OccursAt(s, pat, r) && forall j | 0 <= j < r :: !OccursAt(s, pat, j)
    decreases |s|
  {
    if |s| < |pat| then -1
    else if s[..|pat|] == pat then (assert OccursAt(s, pat, 0); 0)
    else
      var k := Find(s[1..], pat);
      FindInTail(s, pat, k);
      if k == -1 then -1 else k + 1
  }

  /** What the search in the tail says about `s` when `pat` is not at its start. */
  lemma FindInTail(s: string, pat: string, k: int)
    requires |s| >= |pat| && s[..|pat|] != pat
    requires k == -1 <==> !Occurs(s[1..], pat)
    requires k != -1 ==> OccursAt(s[1..], pat, k) && forall j | 0 <= j < k :: !OccursAt(s[1..], pat, j)
    ensures k == -1 <==> !Occurs(s, pat)
    ensures k != -1 ==> OccursAt(s, pat, k + 1) && forall j | 0 <= j < k + 1 :: !OccursAt(s, pat, j)
  {
    OccursShift(s, pat);
    assert !OccursAt(s, pat, 0);
    if k == -1 {
      forall i | 0 <= i <= |s| - |pat|
        ensures !OccursAt(s, pat, i)
      {
        if i > 0 {
          assert !OccursAt(s[1..], pat, i - 1);
        }
      }
    } else {
      assert Occurs(s, pat) by {
        assert OccursAt(s, pat, k + 1);
      }
    }
  }

  /** An occurrence away from index 0 is an occurrence in the tail, one place earlier. */
  lemma OccursShift(s: string, pat: string)
    requires s != []
    ensures forall j | 1 <= j :: OccursAt(s, pat, j) <==> OccursAt(s[1..], pat, j - 1)
  {
    forall j | 1 <= j
      ensures OccursAt(s, pat, j) <==> OccursAt(s[1..], pat, j - 1)
    {
      if j + |pat| <= |s| {
        assert s[j..j + |pat|] == s[1..][j - 1..j - 1 + |pat|];
      }
    }
  }

  /** The first index of `c` in `s`, or -1. */
  function IndexOf(s: string, c: char): (r: int)
    ensures -1 <= r < |s|
    ensures r == -1 <==> c !in s
    ensures r >= 0 ==> s[r] == c && forall j | 0 <= j < r :: s[j] != c
    decreases |s|
  {
    if s == [] then -1
    else if s[0] == c then 0
    else
      var k := IndexOf(s[1..], c);
      if k == -1 then -1 else (assert s[k + 1] == s[1..][k]; k + 1)
  }

  /** The last index of `c` in `s`, or -1. */
  function LastIndexOf(s: string, c: char): (r: int)
    ensures -1 <= r < |s|
    ensures r == -1 <==> c !in s
    ensures r >= 0 ==> s[r] == c && forall j | r < j < |s| :: s[j] != c
    decreases |s|
  {
    if s == [] then -1
    else if s[|s| - 1] == c then |s| - 1
    else
      var k := LastIndexOf(s[..|s| - 1], c);
      (assert forall j | 0 <= j < |s| - 1 :: s[j] == s[..|s| - 1][j]; k)
  }

  /** An index holding `c` with no `c` before it is the one `IndexOf` finds. */
  lemma IndexOfIs(s: string, c: char, k: int)
    requires 0 <= k < |s| && s[k] == c
    requires forall j | 0 <= j < k :: s[j] != c
    ensures IndexOf(s, c) == k
  {
    assert s[k] in s;
  }

  /** An index holding `c` with no `c` after it is the one `LastIndexOf` finds. */
  lemma LastIndexOfIs(s: string, c: char, k: int)
    requires 0 <= k < |s| && s[k] == c
    requires forall j | k < j < |s| :: s[j] != c
    ensures LastIndexOf(s, c) == k
  {
    assert s[k] in s;
  }

  // ------------------------------------------------------------ replacement

  /**
   * `s.replace(pat, rep)`: every occurrence of `pat`, scanning left to right and
   * taking occurrences that do not overlap, is replaced by `rep`. With an empty
   * `pat`, Python inserts `rep` before every character and at the end.
   */
  function Replace(s: string, pat: string, rep: string): string
    decreases |s|
  {
    if pat == [] then
      (if s == [] then rep else rep + [s[0]] + Replace(s[1..], pat, rep))
    else if |s| < |pat| then s
    else if s[..|pat|] == pat then rep + Replace(s[|pat|..], pat, rep)
    else [s[0]] + Replace(s[1..], pat, rep)
  }

  /** `s.replace(pat, rep, 1)`: only the first occurrence is replaced. */
  function ReplaceFirst(s: string, pat: string, rep: string): string
  {
    var i := Find(s, pat);
    if i == -1 then s else s[..i] + rep + s[i + |pat|..]
  }

  /** An occurrence in a suffix of `s` is an occurrence in `s`. */
  lemma OccursInSuffix(s: string, pat: string, k: nat)
    requires k <= |s| && Occurs(s[k..], pat)
    ensures Occurs(s, pat)
  {
    var j :| 0 <= j <= |s[k..]| - |pat| && OccursAt(s[k..], pat, j);
    assert s[k + j..k + j + |pat|] == s[k..][j..j + |pat|];
    assert OccursAt(s, pat, k + j);
  }

  /** A pattern whose first character is absent does not occur. */
  lemma FirstCharAbsent(s: string, pat: string)
    requires pat != [] && pat[0] !in s
    ensures !Occurs(s, pat)
  {
  }

  /** Replacing a pattern that does not occur changes nothing. */
  lemma {:induction false} ReplaceAbsent(s: string, pat: string, rep: string)
    requires pat != [] && !Occurs(s, pat)
    ensures Replace(s, pat, rep) == s
    decreases |s|
  {
    if |s| < |pat| {
    } else if s[..|pat|] == pat {
      assert OccursAt(s, pat, 0);
    } else {
      if Occurs(s[1..], pat) { OccursInSuffix(s, pat, 1); }
      ReplaceAbsent(s[1..], pat, rep);
    }
  }

  /**
   * If the result of a replacement starts with `u`, and no character of `u` can
   * begin the replacement text, then the input already started with `u`.
   */
  lemma {:induction false} ReplacedPrefixComesFromInput(s: string, pat: string, rep: string, u: string)
    requires pat != [] && rep != []
    requires forall k | 0 <= k < |u| :: u[k] != rep[0]
    requires |u| <= |Replace(s, pat, rep)| && Replace(s, pat, rep)[..|u|] == u
    ensures |u| <= |s| && s[..|u|] == u
    decreases |s|
  {
    if u == [] || |s| < |pat| {
    } else {
      assert Replace(s, pat, rep)[..|u|][0] == Replace(s, pat, rep)[0];
      MatchAtStartGivesRep(s, pat, rep);
      assert !OccursAt(s, pat, 0) by { assert s[0..|pat|] == s[..|pat|]; }
      ReplaceCopiesFirst(s, pat, rep);
      var r := Replace(s[1..], pat, rep);
      StartOfCons(s[0], r, u);
      ReplacedPrefixComesFromInput(s[1..], pat, rep, u[1..]);
      StartFromTail(s, u);
      assert s[0..|u|] == s[..|u|];
    }
  }

  /** No occurrence of `q` in `rep + t` when none is in `t` and `q[0]` is not in `rep`. */
  lemma NoOccurrenceAfterPrefix(rep: string, t: string, q: string)
    requires q != [] && q[0] !in rep && !Occurs(t, q)
    ensures !Occurs(rep + t, q)
  {
    var r := rep + t;
    forall i | 0 <= i <= |r| - |q| ensures !OccursAt(r, q, i) {
      if i < |rep| {
        assert r[i] == rep[i] != q[0];
        assert r[i..i + |q|][0] == r[i];
      } else {
        assert r[i..i + |q|] == t[i - |rep|..i - |rep| + |q|];
        assert !OccursAt(t, q, i - |rep|);
      }
    }
  }

  /**
   * After `Replace(s, pat, rep)` no occurrence of `q` is left, provided `q` was the
   * replaced pattern or did not occur in `s`, the first character of `q` is not in
   * `rep`, and no later character of `q` can begin `rep`: the replacement text can
   * neither contain nor complete an occurrence.
   */
  lemma {:induction false} ReplaceLeavesNoOccurrence(s: string, pat: string, rep: string, q: string)
    requires pat != [] && rep != [] && q != []
    requires q[0] !in rep
    requires forall k | 1 <= k < |q| :: q[k] != rep[0]
    requires q == pat || !Occurs(s, q)
    ensures !Occurs(Replace(s, pat, rep), q)
    decreases |s|
  {
    if |s| < |pat| {
    } else if s[..|pat|] == pat {
      var tail := s[|pat|..];
      if q != pat && Occurs(tail, q) { OccursInSuffix(s, q, |pat|); }
      ReplaceLeavesNoOccurrence(tail, pat, rep, q);
      NoOccurrenceAfterPrefix(rep, Replace(tail, pat, rep), q);
    } else {
      var tail := s[1..];
      if q != pat && Occurs(tail, q) { OccursInSuffix(s, q, 1); }
      ReplaceLeavesNoOccurrence(tail, pat, rep, q);
      NoOccurrenceAfterCopiedChar(s, pat, rep, q);
    }
  }

  /** The step of the lemma above where the first character of `s` is copied. */
  lemma NoOccurrenceAfterCopiedChar(s: string, pat: string, rep: string, q: string)
    requires pat != [] && rep != [] && q != []
    requires |s| >= |pat| && s[..|pat|] != pat
    requires forall k | 1 <= k < |q| :: q[k] != rep[0]
    requires q == pat || !Occurs(s, q)
    requires !Occurs(Replace(s[1..], pat, rep), q)
    ensures !Occurs(Replace(s, pat, rep), q)
  {
    var rt := Replace(s[1..], pat, rep);
    assert Replace(s, pat, rep) == [s[0]] + rt;
    NoOccurrenceAtStart(s, pat, rep, q);
    NoOccurrenceAfterChar(s[0], rt, q);
  }

  /** An occurrence in `[c] + t` away from index 0 is an occurrence in `t`. */
  lemma NoOccurrenceAfterChar(c: char, t: string, q: string)
    requires q != [] && !Occurs(t, q) && !OccursAt([c] + t, q, 0)
    ensures !Occurs([c] + t, q)
  {
    var r := [c] + t;
    assert r[1..] == t;
    OccursShift(r, q);
  }

  /** An occurrence of `q` at the start of the result starts the input too. */
  lemma OccurrenceAtStartComesFromInput(s: string, pat: string, rep: string, q: string)
    requires pat != [] && rep != [] && q != []
    requires |s| >= |pat| && s[..|pat|] != pat
    requires forall k | 1 <= k < |q| :: q[k] != rep[0]
    ensures OccursAt(Replace(s, pat, rep), q, 0) ==> OccursAt(s, q, 0)
  {
    var tail := s[1..];
    var rt := Replace(tail, pat, rep);
    assert !OccursAt(s, pat, 0) by { assert s[0..|pat|] == s[..|pat|]; }
    ReplaceCopiesFirst(s, pat, rep);
    if OccursAt(Replace(s, pat, rep), q, 0) {
      StartOfCons(s[0], rt, q);
      ReplacedPrefixComesFromInput(tail, pat, rep, q[1..]);
      StartFromTail(s, q);
    }
  }

  /** An occurrence at the start of `[c] + t` is `c`, then a prefix of `t`. */
  lemma StartOfCons(c: char, t: string, q: string)
    requires q != [] && OccursAt([c] + t, q, 0)
    ensures q[0] == c && |q| - 1 <= |t| && t[..|q| - 1] == q[1..]
  {
    var r := [c] + t;
    assert r[..|q|] == q;
    assert r[..|q|][0] == r[0];
    forall k | 0 <= k < |q| - 1 ensures t[..|q| - 1][k] == q[1..][k] {
      assert r[..|q|][k + 1] == r[k + 1];
    }
  }

  /** A text whose first character and tail start like `q` starts with `q`. */
  lemma StartFromTail(s: string, q: string)
    requires s != [] && q != [] && q[0] == s[0]
    requires |q| - 1 <= |s| - 1 && s[1..][..|q| - 1] == q[1..]
    ensures OccursAt(s, q, 0)
  {
    assert s[0..|q|] == [s[0]] + s[1..][..|q| - 1];
  }

  /** The copied first character cannot start an occurrence of `q` in the result. */
  lemma NoOccurrenceAtStart(s: string, pat: string, rep: string, q: string)
    requires pat != [] && rep != [] && q != []
    requires |s| >= |pat| && s[..|pat|] != pat
    requires forall k | 1 <= k < |q| :: q[k] != rep[0]
    requires q == pat || !Occurs(s, q)
    ensures !OccursAt(Replace(s, pat, rep), q, 0)
  {
    OccurrenceAtStartComesFromInput(s, pat, rep, q);
    assert !OccursAt(s, q, 0);
  }

  /** A leading character that cannot start the pattern is copied, and the scan moves on. */
  lemma ReplaceSkipsChar(c: char, z: string, pat: string, rep: string)
    requires pat != [] && c != pat[0]
    ensures Replace([c] + z, pat, rep) == [c] + Replace(z, pat, rep)
  {
    assert ([c] + z)[1..] == z;
    if |[c] + z| < |pat| {
      ReplaceShort(z, pat, rep);
    }
  }

  /** A leading text in which the pattern's first character never appears is copied. */
  lemma {:induction false} ReplaceSkipsText(p: string, z: string, pat: string, rep: string)
    requires pat != [] && pat[0] !in p
    ensures Replace(p + z, pat, rep) == p + Replace(z, pat, rep)
    decreases |p|
  {
    if p == [] {
      assert p + z == z;
    } else {
      var c, q := p[0], p[1..];
      calc {
        Replace(p + z, pat, rep);
        { ConsConcat(p, z); }
        Replace([c] + (q + z), pat, rep);
        { ReplaceSkipsChar(c, q + z, pat, rep); }
        [c] + Replace(q + z, pat, rep);
        { ReplaceSkipsText(q, z, pat, rep); }
        [c] + (q + Replace(z, pat, rep));
        { ConsConcat(p, Replace(z, pat, rep)); }
        p + Replace(z, pat, rep);
      }
    }
  }

  /** A non-empty text, regrouped as its first character and the rest. */
  lemma ConsConcat(p: string, z: string)
    requires p != []
    ensures p + z == [p[0]] + (p[1..] + z)
  {
  }

  /** A leading text where the pattern never starts is copied, and the scan moves on. */
  lemma {:induction false} ReplaceCopiesUnmatched(x: string, z: string, pat: string, rep: string)
    requires pat != []
    requires forall i | 0 <= i < |x| :: !OccursAt(x + z, pat, i)
    ensures Replace(x + z, pat, rep) == x + Replace(z, pat, rep)
    decreases |x|
  {
    var s := x + z;
    if x == [] {
      assert s == z;
    } else if |s| < |pat| {
      ReplaceShort(s, pat, rep);
      ReplaceShort(z, pat, rep);
    } else {
      assert !OccursAt(s, pat, 0);
      UnmatchedAfterFirst(x, z, pat);
      calc {
        Replace(s, pat, rep);
        { ReplaceCopiesFirst(s, pat, rep); }
        [s[0]] + Replace(s[1..], pat, rep);
        { ConsConcat(x, z); }
        [x[0]] + Replace(x[1..] + z, pat, rep);
        { ReplaceCopiesUnmatched(x[1..], z, pat, rep); }
        [x[0]] + (x[1..] + Replace(z, pat, rep));
        { ConsConcat(x, Replace(z, pat, rep)); }
        x + Replace(z, pat, rep);
      }
    }
  }

  /** Where the pattern does not start, the first character is copied. */
  lemma ReplaceCopiesFirst(s: string, pat: string, rep: string)
    requires pat != [] && |s| >= |pat| && !OccursAt(s, pat, 0)
    ensures Replace(s, pat, rep) == [s[0]] + Replace(s[1..], pat, rep)
  {
    assert s[..|pat|] != pat;
  }

  lemma UnmatchedAfterFirst(x: string, z: string, pat: string)
    requires x != []
    requires forall i | 0 <= i < |x| :: !OccursAt(x + z, pat, i)
    ensures forall i | 0 <= i < |x| - 1 :: !OccursAt(x[1..] + z, pat, i)
  {
    var s := x + z;
    assert s[1..] == x[1..] + z;
    OccursShift(s, pat);
    forall i | 0 <= i < |x| - 1
      ensures !OccursAt(x[1..] + z, pat, i)
    {
      assert !OccursAt(s, pat, i + 1);
    }
  }

  lemma ReplaceShort(s: string, pat: string, rep: string)
    requires pat != [] && |s| < |pat|
    ensures Replace(s, pat, rep) == s
  {
  }

  /** A text that starts with the pattern has it replaced there. */
  lemma ReplaceAtStart(pat: string, z: string, rep: string)
    requires pat != []
    ensures Replace(pat + z, pat, rep) == rep + Replace(z, pat, rep)
  {
    assert (pat + z)[..|pat|] == pat;
    assert (pat + z)[|pat|..] == z;
  }

  /** A replacement of a text that starts with the pattern starts with the replacement text. */
  lemma MatchAtStartGivesRep(s: string, pat: string, rep: string)
    requires pat != [] && rep != [] && |s| >= |pat|
    ensures s[..|pat|] == pat ==> |Replace(s, pat, rep)| > 0 && Replace(s, pat, rep)[0] == rep[0]
  {
  }

  /** A pattern that does not start where `s` starts leaves the first character alone. */
  lemma ReplaceKeepsFirst(s: string, pat: string, rep: string)
    requires s != [] && pat != [] && s[0] != pat[0]
    ensures |Replace(s, pat, rep)| > 0 && Replace(s, pat, rep)[0] == s[0]
  {
  }

  /** A pattern that cannot end where `s` ends leaves the last character alone. */
  lemma {:induction false} ReplaceKeepsLast(s: string, pat: string, rep: string)
    requires s != [] && pat != [] && s[|s| - 1] != pat[|pat| - 1]
    ensures |Replace(s, pat, rep)| > 0
    ensures Replace(s, pat, rep)[|Replace(s, pat, rep)| - 1] == s[|s| - 1]
    decreases |s|
  {
    if |s| < |pat| {
    } else if s[..|pat|] == pat {
      ReplaceKeepsLast(s[|pat|..], pat, rep);
    } else if |s| > 1 {
      ReplaceKeepsLast(s[1..], pat, rep);
    }
  }

  /** The same two facts for a replacement with count 1. */
  lemma ReplaceFirstKeepsEnds(s: string, pat: string, rep: string)
    requires s != [] && pat != [] && s[0] != pat[0] && s[|s| - 1] != pat[|pat| - 1]
    ensures var r := ReplaceFirst(s, pat, rep);
      |r| > 0 && r[0] == s[0] && r[|r| - 1] == s[|s| - 1]
  {
    var i := Find(s, pat);
    if i != -1 {
      SpliceKeepsEnds(s, pat, rep, i);
    }
  }

  /** Splicing `rep` over an occurrence that touches neither end keeps both ends. */
  lemma SpliceKeepsEnds(s: string, pat: string, rep: string, i: int)
    requires pat != [] && OccursAt(s, pat, i)
    requires s[0] != pat[0] && s[|s| - 1] != pat[|pat| - 1]
    ensures var r := s[..i] + rep + s[i + |pat|..];
      |r| > 0 && r[0] == s[0] && r[|r| - 1] == s[|s| - 1]
  {
    var m := s[i..i + |pat|];
    assert m[0] == s[i] && m[|pat| - 1] == s[i + |pat| - 1];
    var p, q := s[..i], s[i + |pat|..];
    assert p != [] && p[0] == s[0];
    assert q != [] && q[|q| - 1] == s[|s| - 1];
  }

  /** Replacement never produces a character found neither in `s` nor in `rep`. */
  lemma {:induction false} ReplaceAddsNoChar(s: string, pat: string, rep: string, c: char)
    requires c !in s && c !in rep
    ensures c !in Replace(s, pat, rep)
    decreases |s|
  {
    if pat == [] {
      if s != [] { ReplaceAddsNoChar(s[1..], pat, rep, c); }
    } else if |s| < |pat| {
    } else if s[..|pat|] == pat {
      ReplaceAddsNoChar(s[|pat|..], pat, rep, c);
    } else {
      ReplaceAddsNoChar(s[1..], pat, rep, c);
    }
  }

  /** A one-character pattern occurs exactly where the character does. */
  lemma OccursChar(s: string, c: char)
    ensures Occurs(s, [c]) <==> c in s
  {
    if c in s {
      var i :| 0 <= i < |s| && s[i] == c;
      assert OccursAt(s, [c], i);
    }
    if Occurs(s, [c]) {
      var i :| 0 <= i <= |s| - 1 && OccursAt(s, [c], i);
      assert s[i] == s[i..i + 1][0];
    }
  }

  /** Replacing a single character works piece by piece over a concatenation. */
  lemma {:induction false} ReplaceCharConcat(x: string, y: string, c: char, rep: string)
    ensures Replace(x + y, [c], rep) == Replace(x, [c], rep) + Replace(y, [c], rep)
    decreases |x|
  {
    if x == [] {
      assert x + y == y;
    } else {
      assert (x + y)[1..] == x[1..] + y;
      ReplaceCharConcat(x[1..], y, c, rep);
    }
  }

  /** Deleting a character removes every copy of it. */
  lemma {:induction false} DeleteCharRemovesAll(s: string, c: char)
    ensures c !in Replace(s, [c], [])
    decreases |s|
  {
    if s != [] { DeleteCharRemovesAll(s[1..], c); }
  }

  /** Deleting a character keeps every other character, and adds none. */
  lemma {:induction false} DeleteCharKeepsOthers(s: string, c: char, d: char)
    requires d != c
    ensures d in Replace(s, [c], []) <==> d in s
    decreases |s|
  {
    if s != [] {
      assert s == [s[0]] + s[1..];
      ReplaceCharConcat([s[0]], s[1..], c, []);
      DeleteCharKeepsOthers(s[1..], c, d);
      assert Replace([s[0]], [c], []) == (if s[0] == c then [] else [s[0]]);
    }
  }

  /** Deleting every character of a run made only of that character leaves nothing. */
  lemma {:induction false} DeleteRun(s: string, c: char)
    requires forall i | 0 <= i < |s| :: s[i] == c
    ensures Replace(s, [c], []) == []
    decreases |s|
  {
    if s != [] {
      assert s[..1] == [c];
      DeleteRun(s[1..], c);
    }
  }

  /** Deleting a character that is absent changes nothing. */
  lemma DeleteAbsentChar(s: string, c: char)
    requires c !in s
    ensures Replace(s, [c], []) == s
  {
    OccursChar(s, c);
    ReplaceAbsent(s, [c], []);
  }

  // ----------------------------------------------------------------- strip

  predicate AllWhitespace(s: string) { forall i | 0 <= i < |s| :: IsWhitespace(s[i]) }

  /** `s.lstrip()`: the longest suffix of `s` that does not start with whitespace. */
  function StripLeading(s: string): (r: string)
    ensures |r| <= |s| && r == s[|s| - |r|..]
    ensures r == [] || !IsWhitespace(r[0])
    ensures AllWhitespace(s[..|s| - |r|])
    decreases |s|
  {
    if s != [] && IsWhitespace(s[0]) then
      var r := StripLeading(s[1..]);
      assert s[1..][..|s| - 1 - |r|] == s[1..|s| - |r|];
      r
    else s
  }

  /** `s.rstrip()`: the longest prefix of `s` that does not end with whitespace. */
  function StripTrailing(s: string): (r: string)
    ensures |r| <= |s| && r == s[..|r|]
    ensures r == [] || !IsWhitespace(r[|r| - 1])
    ensures AllWhitespace(s[|r|..])
    decreases |s|
  {
    if s != [] && IsWhitespace(s[|s| - 1]) then
      var r := StripTrailing(s[..|s| - 1]);
      assert AllWhitespace(s[|r|..]) by {
        forall i | 0 <= i < |s| - |r|
          ensures IsWhitespace(s[|r|..][i])
        {
          if i < |s| - 1 - |r| { assert s[|r|..][i] == s[..|s| - 1][|r|..][i]; }
        }
      }
      r
    else s
  }

  /** `s.strip()`. */
  function Strip(s: string): (r: string)
    ensures |r| <= |s|
    ensures r == [] || (!IsWhitespace(r[0]) && !IsWhitespace(r[|r| - 1]))
  {
    StripTrailing(StripLeading(s))
  }

  /** A character that is not whitespace is in `w + t`, for a blank `w`, exactly when it is in `t`. */
  lemma NonWhitespaceAfterBlank(w: string, t: string, c: char)
    requires AllWhitespace(w) && !IsWhitespace(c)
    ensures c in w + t <==> c in t
  {
    if c in w + t {
      var i :| 0 <= i < |w + t| && (w + t)[i] == c;
      if i >= |w| { assert t[i - |w|] == c; }
    }
  }

  lemma NonWhitespaceBeforeBlank(t: string, w: string, c: char)
    requires AllWhitespace(w) && !IsWhitespace(c)
    ensures c in t + w <==> c in t
  {
    if c in t + w {
      var i :| 0 <= i < |t + w| && (t + w)[i] == c;
      if i < |t| { assert t[i] == c; }
    }
  }

  /** `strip` removes whitespace only: a character that is not whitespace stays exactly when it was there. */
  lemma StripKeepsNonWhitespace(s: string, c: char)
    requires !IsWhitespace(c)
    ensures c in Strip(s) <==> c in s
  {
    var l := StripLeading(s);
    var r := StripTrailing(l);
    KeptAfterBlankPrefix(s, l, c);
    KeptBeforeBlankSuffix(l, r, c);
  }

  lemma KeptAfterBlankPrefix(s: string, l: string, c: char)
    requires |l| <= |s| && l == s[|s| - |l|..] && AllWhitespace(s[..|s| - |l|]) && !IsWhitespace(c)
    ensures c in l <==> c in s
  {
    assert s == s[..|s| - |l|] + l;
    NonWhitespaceAfterBlank(s[..|s| - |l|], l, c);
  }

  lemma KeptBeforeBlankSuffix(l: string, r: string, c: char)
    requires |r| <= |l| && r == l[..|r|] && AllWhitespace(l[|r|..]) && !IsWhitespace(c)
    ensures c in r <==> c in l
  {
    assert l == r + l[|r|..];
    NonWhitespaceBeforeBlank(r, l[|r|..], c);
  }

  /** `lstrip` removes exactly a whitespace prefix in front of a non-blank text. */
  lemma {:induction false} StripLeadingPadding(w: string, t: string)
    requires AllWhitespace(w) && (t == [] || !IsWhitespace(t[0]))
    ensures StripLeading(w + t) == t
    decreases |w|
  {
    if w != [] {
      assert (w + t)[1..] == w[1..] + t;
      StripLeadingPadding(w[1..], t);
    } else {
      assert w + t == t;
    }
  }

  /** `rstrip` removes exactly a whitespace suffix behind a non-blank text. */
  lemma {:induction false} StripTrailingPadding(t: string, w: string)
    requires AllWhitespace(w) && (t == [] || !IsWhitespace(t[|t| - 1]))
    ensures StripTrailing(t + w) == t
    decreases |w|
  {
    if w != [] {
      assert (t + w)[..|t + w| - 1] == t + w[..|w| - 1];
      StripTrailingPadding(t, w[..|w| - 1]);
    } else {
      assert t + w == t;
    }
  }

  /**
   * `strip` inverts padding: whitespace added on either side of a text that
   * neither starts nor ends with whitespace is removed and nothing else is.
   */
  lemma StripPadding(left: string, s: string, right: string)
    requires AllWhitespace(left) && AllWhitespace(right)
    requires s == [] || (!IsWhitespace(s[0]) && !IsWhitespace(s[|s| - 1]))
    ensures Strip(left + s + right) == s
  {
    if s == [] {
      assert left + s + right == left + right;
      assert AllWhitespace(left + right);
      StripLeadingPadding(left + right, []);
      assert left + right + [] == left + right;
    } else {
      assert left + s + right == left + (s + right);
      StripLeadingPadding(left, s + right);
      StripTrailingPadding(s, right);
    }
  }

  // ----------------------------------------------------------------- split

  /** The number of times `c` appears in `s`. */
  function Count(s: string, c: char): (n: nat)
    ensures n == 0 <==> c !in s
    decreases |s|
  {
    if s == [] then 0 else (if s[0] == c then 1 else 0) + Count(s[1..], c)
  }

  /** `s.split(sep)`: the pieces between separators, one more than separators. */
  function Split(s: string, sep: char): (parts: seq<string>)
    ensures |parts| == Count(s, sep) + 1
    ensures forall i | 0 <= i < |parts| :: sep !in parts[i]
    decreases |s|
  {
    if s == [] then [[]]
    else
      var rest := Split(s[1..], sep);
      if s[0] == sep then [[]] + rest else [[s[0]] + rest[0]] + rest[1..]
  }

  /** Counting distributes over concatenation. */
  lemma {:induction false} CountConcat(x: string, y: string, c: char)
    ensures Count(x + y, c) == Count(x, c) + Count(y, c)
    decreases |x|
  {
    if x == [] {
      assert x + y == y;
    } else {
      assert (x + y)[1..] == x[1..] + y;
      CountConcat(x[1..], y, c);
    }
  }

  /** `sep.join(parts)`. */
  function Join(parts: seq<string>, sep: char): string
    decreases |parts|
  {
    if parts == [] then [] else if |parts| == 1 then parts[0] else parts[0] + [sep] + Join(parts[1..], sep)
  }

  /** Joining the pieces of a split with the same separator gives back the input. */
  lemma {:induction false} SplitJoin(s: string, sep: char)
    ensures Join(Split(s, sep), sep) == s
    decreases |s|
  {
    if s != [] {
      var rest := Split(s[1..], sep);
      SplitJoin(s[1..], sep);
      if s[0] == sep {
        assert Split(s, sep) == [[]] + rest;
        JoinCons([], rest, sep);
        assert s == [sep] + s[1..];
      } else {
        SplitCons(s, sep, rest);
        JoinExtendFirst(s[0], rest, sep);
        assert s == [s[0]] + s[1..];
      }
    }
  }

  lemma JoinCons(p: string, rest: seq<string>, sep: char)
    requires rest != []
    ensures Join([p] + rest, sep) == p + [sep] + Join(rest, sep)
  {
    assert ([p] + rest)[1..] == rest;
  }

  /** Putting `c` in front of the first piece puts it in front of the joined text. */
  lemma JoinExtendFirst(c: char, rest: seq<string>, sep: char)
    requires rest != []
    ensures Join([[c] + rest[0]] + rest[1..], sep) == [c] + Join(rest, sep)
  {
    var parts := [[c] + rest[0]] + rest[1..];
    if |rest| > 1 {
      assert parts[1..] == rest[1..];
    }
  }

  /** A piece free of the separator, then the separator, start the split. */
  lemma {:induction false} SplitAfterPiece(x: string, rest: string, sep: char)
    requires sep !in x
    ensures Split(x + [sep] + rest, sep) == [x] + Split(rest, sep)
    decreases |x|
  {
    var s := x + [sep] + rest;
    if x == [] {
      assert s[1..] == rest;
    } else {
      var tail := x[1..];
      assert s[0] == x[0] && s[0] != sep;
      assert s[1..] == tail + [sep] + rest;
      SplitAfterPiece(tail, rest, sep);
      SplitCons(s, sep, [tail] + Split(rest, sep));
      assert [x[0]] + tail == x;
    }
  }

  /** The split of a text that does not start with the separator, from the split of its tail. */
  lemma SplitCons(s: string, sep: char, rest: seq<string>)
    requires s != [] && s[0] != sep && Split(s[1..], sep) == rest
    ensures Split(s, sep) == [[s[0]] + rest[0]] + rest[1..]
  {
  }

  /** A text without the separator splits into itself alone. */
  lemma {:induction false} SplitWithoutSeparator(y: string, sep: char)
    requires sep !in y
    ensures Split(y, sep) == [y]
    decreases |y|
  {
    if y != [] {
      SplitWithoutSeparator(y[1..], sep);
      assert [y[0]] + y[1..] == y;
    }
  }

  /** Splitting pieces joined by a separator none of them holds gives back the pieces. */
  lemma {:induction false} SplitJoinedPieces(ps: seq<string>, sep: char)
    requires ps != [] && forall i | 0 <= i < |ps| :: sep !in ps[i]
    ensures Split(Join(ps, sep), sep) == ps
    decreases |ps|
  {
    if |ps| == 1 {
      SplitWithoutSeparator(ps[0], sep);
    } else {
      SplitJoinedPieces(ps[1..], sep);
      SplitAfterPiece(ps[0], Join(ps[1..], sep), sep);
      assert ps == [ps[0]] + ps[1..];
    }
  }

  /** A text split at its only separator falls into the two sides. */
  lemma SplitAtOnlySeparator(x: string, y: string, sep: char)
    requires sep !in x && sep !in y
    ensures Split(x + [sep] + y, sep) == [x, y]
  {
    SplitAfterPiece(x, y, sep);
    SplitWithoutSeparator(y, sep);
  }

  // ---------------------------------------------------------------- escape

  /** The characters Python's `re.escape` (3.7 and later) prefixes with a backslash. */
  const RegexSpecial: set<char> :=
    {'(', ')', '[', ']', '{', '}', '?', '*', '+', '-', '|', '^', '$', '\\', '.', '&', '~', '#',
     ' ', '\t', '\n', '\r', '\U{0B}', '\U{0C}'}

  function EscapeChar(c: char): string
  {
    if c in RegexSpecial then ['\\', c] else [c]
  }

  /** `re.escape(s)`: each character escaped on its own. */
  function Escape(s: string): (r: string)
    ensures |r| >= |s|
    decreases |s|
  {
    if s == [] then [] else EscapeChar(s[0]) + Escape(s[1..])
  }

  /** Escaping distributes over concatenation. */
  lemma {:induction false} EscapeConcat(x: string, y: string)
    ensures Escape(x + y) == Escape(x) + Escape(y)
    decreases |x|
  {
    if x == [] {
      assert x + y == y;
    } else {
      assert (x + y)[1..] == x[1..] + y;
      EscapeConcat(x[1..], y);
    }
  }

  /** Apart from the backslash, escaping neither adds nor removes any character. */
  lemma {:induction false} EscapeKeepsChar(s: string, c: char)
    requires c != '\\'
    ensures c in Escape(s) <==> c in s
    decreases |s|
  {
    if s != [] {
      EscapeKeepsChar(s[1..], c);
      assert Escape(s) == EscapeChar(s[0]) + Escape(s[1..]);
      assert c in s <==> c == s[0] || c in s[1..];
    }
  }

  /** Escaping loses nothing: two texts with the same escaped form are equal. */
  lemma {:induction false} EscapeInjective(x: string, y: string)
    requires Escape(x) == Escape(y)
    ensures x == y
    decreases |x|
  {
    if x != [] && y != [] {
      var ex, ey := EscapeChar(x[0]), EscapeChar(y[0]);
      assert Escape(x) == ex + Escape(x[1..]);
      assert Escape(y) == ey + Escape(y[1..]);
      assert Escape(x)[0] == ex[0] && Escape(y)[0] == ey[0];
      assert (x[0] in RegexSpecial) == (y[0] in RegexSpecial);
      assert |ex| == |ey|;
      assert x[0] == y[0] by {
        if x[0] in RegexSpecial {
          assert Escape(x)[1] == ex[1] && Escape(y)[1] == ey[1];
        }
      }
      assert Escape(x)[|ex|..] == Escape(x[1..]) && Escape(y)[|ey|..] == Escape(y[1..]);
      EscapeInjective(x[1..], y[1..]);
      assert x == [x[0]] + x[1..] && y == [y[0]] + y[1..];
    }
  }

  /** The escaped form of a braced text: `\{`, the escaped text, `\}`. */
  lemma EscapeBraced(e: string)
    ensures Escape("{" + e + "}") == "\\{" + Escape(e) + "\\}"
  {
    EscapeConcat("{", e + "}");
    EscapeConcat(e, "}");
    assert "{" + e + "}" == "{" + (e + "}");
  }
}
