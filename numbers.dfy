/**
 * Integer text: the part of Python's `int()` the decoders reach, and the
 * reference definitions of how Python's `format` writes an integer
 * (plain, zero padded, and grouped by thousands with `,`).
 */
module Numbers {
  import opened Wrappers
  import opened Strings

  function DigitValue(c: char): nat
    requires IsDigit(c)
  {
    (c as int) - ('0' as int)
  }

  function DigitChar(d: nat): (c: char)
    requires d < 10
    ensures IsDigit(c) && DigitValue(c) == d
  {
    (('0' as int) + d) as char
  }

  /** The value of a decimal digit string, most significant digit first. */
  function DigitsValue(s: string): nat
    requires AllDigits(s)
    decreases |s|
  {
    if s == [] then 0 else DigitsValue(s[..|s| - 1]) * 10 + DigitValue(s[|s| - 1])
  }

  /**
   * `int(s)` on text made of an optional `-` and ASCII digits; any other text
   * (empty, a lone `-`, a `|`, a `.`) is rejected, as `int()` raises ValueError.
   */
  function ParseInt(s: string): Option<int>
  {
    if |s| > 0 && s[0] == '-' then
      (if |s| > 1 && AllDigits(s[1..]) then var v: int := DigitsValue(s[1..]); Some(-v) else None)
    else if |s| > 0 && AllDigits(s) then Some(DigitsValue(s))
    else None
  }

  /** The shortest decimal digits of `n`, as `str(n)` writes them. */
  function NatDigits(n: nat): (s: string)
    ensures |s| > 0 && AllDigits(s)
  {
    if n < 10 then [DigitChar(n)] else NatDigits(n / 10) + [DigitChar(n % 10)]
  }

  /** `str(n)` for every integer. */
  function IntToString(n: int): string
  {
    if n < 0 then "-" + NatDigits(-n) else NatDigits(n)
  }

  /** Reading back the digits of `n` gives `n`. */
  lemma {:induction false} NatDigitsValue(n: nat)
    ensures DigitsValue(NatDigits(n)) == n
  {
    if n >= 10 {
      var s := NatDigits(n);
      assert s[..|s| - 1] == NatDigits(n / 10);
      NatDigitsValue(n / 10);
    }
  }

  /** `int(str(n)) == n`. */
  lemma ParseIntToString(n: int)
    ensures ParseInt(IntToString(n)) == Some(n)
  {
    if n < 0 {
      assert IntToString(n)[1..] == NatDigits(-n);
      NatDigitsValue(-n);
    } else {
      NatDigitsValue(n);
    }
  }

  function Zeros(k: nat): (z: string)
    ensures |z| == k && AllDigits(z)
  {
    if k == 0 then [] else "0" + Zeros(k - 1)
  }

  /** Leading zeros do not change the value of a digit string. */
  lemma {:induction false} LeadingZerosValue(k: nat, s: string)
    requires AllDigits(s)
    ensures AllDigits(Zeros(k) + s) && DigitsValue(Zeros(k) + s) == DigitsValue(s)
    decreases |s|
  {
    var z := Zeros(k) + s;
    assert AllDigits(z);
    if s == [] {
      assert z == Zeros(k);
      ZerosValue(k);
    } else {
      assert z[..|z| - 1] == Zeros(k) + s[..|s| - 1];
      LeadingZerosValue(k, s[..|s| - 1]);
    }
  }

  lemma {:induction false} ZerosValue(k: nat)
    ensures DigitsValue(Zeros(k)) == 0
  {
    if k > 0 {
      var z := Zeros(k);
      assert z[..k - 1] == Zeros(k - 1) by {
        if k > 1 { assert Zeros(k - 1) == "0" + Zeros(k - 2); ZerosPrefix(k - 1); }
      }
      ZerosValue(k - 1);
    }
  }

  lemma {:induction false} ZerosPrefix(k: nat)
    requires k > 0
    ensures Zeros(k + 1)[..k] == Zeros(k) && Zeros(k + 1)[k] == '0'
  {
    if k > 1 { ZerosPrefix(k - 1); }
  }

  /**
   * Python's zero-padded form of `n` (`format(n, "0<w>n")`): the sign, then
   * zeros, then the digits. `int()` reads it back as `n`.
   */
  function ZeroPadded(n: int, zeros: nat): string
  {
    if n < 0 then "-" + Zeros(zeros) + NatDigits(-n) else Zeros(zeros) + NatDigits(n)
  }

  lemma ParseZeroPadded(n: int, zeros: nat)
    ensures ParseInt(ZeroPadded(n, zeros)) == Some(n)
  {
    var m: nat := if n < 0 then -n else n;
    var body := Zeros(zeros) + NatDigits(m);
    LeadingZerosValue(zeros, NatDigits(m));
    NatDigitsValue(m);
    if n < 0 {
      ParseNegative(body);
      assert ZeroPadded(n, zeros) == "-" + body;
    } else {
      ParseNonNegative(body);
    }
  }

  lemma ParseNegative(body: string)
    requires |body| > 0 && AllDigits(body)
    ensures ParseInt("-" + body) == Some(-(DigitsValue(body) as int))
  {
    assert ("-" + body)[1..] == body;
  }

  lemma ParseNonNegative(body: string)
    requires |body| > 0 && AllDigits(body)
    ensures ParseInt(body) == Some(DigitsValue(body) as int)
  {
  }

  /** Digits grouped in threes from the right with `,`, as `format(n, ",")` writes them. */
  function GroupThousands(s: string): string
    decreases |s|
  {
    if |s| <= 3 then s else GroupThousands(s[..|s| - 3]) + "," + s[|s| - 3..]
  }

  /** `format(n, ",")`. */
  function FormatGrouped(n: int): string
  {
    if n < 0 then "-" + GroupThousands(NatDigits(-n)) else GroupThousands(NatDigits(n))
  }

  /** Removing the commas of a grouped digit string leaves the digits. */
  lemma {:induction false} UngroupThousands(s: string)
    requires AllDigits(s)
    ensures Replace(GroupThousands(s), ",", "") == s
    decreases |s|
  {
    if |s| <= 3 {
      NoCommaInDigits(s);
      DeleteAbsentChar(s, ',');
    } else {
      var hi, lo := s[..|s| - 3], s[|s| - 3..];
      UngroupThousands(hi);
      NoCommaInDigits(lo);
      UngroupLastGroup(GroupThousands(hi), hi, lo);
      assert hi + lo == s;
    }
  }

  /** Deleting the commas of `g + "," + lo` deletes those of `g`, the separator, and keeps `lo`. */
  lemma UngroupLastGroup(g: string, hi: string, lo: string)
    requires Replace(g, ",", "") == hi && ',' !in lo
    ensures Replace(g + "," + lo, ",", "") == hi + lo
  {
    DeleteAbsentChar(lo, ',');
    ReplaceCharConcat(g + ",", lo, ',', "");
    ReplaceCharConcat(g, ",", ',', "");
    assert Replace(",", ",", "") == "";
  }

  lemma NoCommaInDigits(s: string)
    requires AllDigits(s)
    ensures ',' !in s
  {
  }

  /** `int(format(n, ",").replace(",", "")) == n`. */
  lemma ParseGrouped(n: int)
    ensures ParseInt(Replace(FormatGrouped(n), ",", "")) == Some(n)
  {
    if n < 0 {
      UngroupThousands(NatDigits(-n));
      ReplaceCharConcat("-", GroupThousands(NatDigits(-n)), ',', "");
      assert Replace("-", ",", "") == "-";
      assert "-" + NatDigits(-n) == IntToString(n);
    } else {
      UngroupThousands(NatDigits(n));
    }
    ParseIntToString(n);
  }

  /** A `|` anywhere makes `int()` fail. */
  lemma ParseIntRejectsBar(s: string)
    requires '|' in s
    ensures ParseInt(s) == None
  {
    var i :| 0 <= i < |s| && s[i] == '|';
    if |s| > 0 && s[0] == '-' {
      assert s[1..][i - 1] == '|';
    }
  }
}
