/** `parseInt(index, 10)` as the read, delete and edit handlers apply it to
    the index they are given: skip leading whitespace, take an optional
    sign, then the longest run of decimal digits. No digits gives `None`,
    which plays JavaScript's `NaN`. Negative zero is folded into zero, as
    every use of the result (a comparison and an array index) treats them
    alike. */
module IntParsing {
  import opened Options
  import opened CharClasses

  /** `s` without its leading whitespace. */
  function TrimStart(s: string): (t: string)
    ensures |t| <= |s| && t == s[|s| - |t|..]
    ensures |t| > 0 ==> !IsWhitespace(t[0])
    ensures forall i :: 0 <= i < |s| - |t| ==> IsWhitespace(s[i])
  {
    if |s| > 0 && IsWhitespace(s[0]) then
      var t := TrimStart(s[1..]);
      assert forall i :: 1 <= i < |s| - |t| ==> s[i] == s[1..][i - 1];
      t
    else s
  }

  /** The longest prefix of `s` made of ASCII digits. */
  function DigitPrefix(s: string): (d: string)
    ensures d <= s
    ensures AllDigits(d)
    ensures |d| < |s| ==> !IsDigit(s[|d|])
  {
    if |s| > 0 && IsDigit(s[0]) then [s[0]] + DigitPrefix(s[1..]) else []
  }

  /** The value of a string of decimal digits, most significant first. */
  function DigitsValue(d: string): nat
    requires AllDigits(d)
  {
    if |d| == 0 then 0 else 10 * DigitsValue(d[..|d| - 1]) + DigitValue(d[|d| - 1])
  }

  /** `parseInt(s, 10)`. */
  function ParseInt(s: string): Option<int> {
    ParseTrimmed(TrimStart(s))
  }

  /** `parseInt` once leading whitespace is gone: an optional sign, then
      the digits up to the first non-digit. */
  function ParseTrimmed(t: string): Option<int> {
    if |t| > 0 && t[0] == '-' then Negate(ParseDigits(t[1..]))
    else if |t| > 0 && t[0] == '+' then ParseDigits(t[1..])
    else ParseDigits(t)
  }

  /** The value of the leading digits of `u`, or `NaN` when there are none. */
  function ParseDigits(u: string): Option<int> {
    var d := DigitPrefix(u);
    if |d| == 0 then None else Some(DigitsValue(d))
  }

  /** Negation, with `NaN` staying `NaN`. */
  function Negate(v: Option<int>): Option<int> {
    match v
    case Some(x) => Some(-x)
    case None => None
  }

  /** The decimal text of a natural number, without leading zeros. */
  function ShowNat(n: nat): (s: string)
    ensures |s| > 0 && AllDigits(s)
  {
    if n < 10 then [DigitChar(n)] else ShowNat(n / 10) + [DigitChar(n % 10)]
  }

  /** The plain decimal text of an integer, with `-` before a negative
      one. */
  function ShowInt(n: int): (s: string)
    ensures |s| > 0 && !IsWhitespace(s[0])
  {
    if n < 0 then "-" + ShowNat(-n) else ShowNat(n)
  }

  /** Reading back the digits of `n` gives `n`. */
  lemma {:induction false} DigitsValueOfShowNat(n: nat)
    ensures DigitsValue(ShowNat(n)) == n
    decreases n
  {
    if n >= 10 {
      DigitsValueOfShowNat(n / 10);
      var s := ShowNat(n);
      assert s[..|s| - 1] == ShowNat(n / 10);
    }
  }

  /** The digit prefix of digits followed by a non-digit is those digits. */
  lemma {:induction false} DigitPrefixOfDigits(d: string, rest: string)
    requires AllDigits(d)
    requires |rest| > 0 ==> !IsDigit(rest[0])
    ensures DigitPrefix(d + rest) == d
    decreases |d|
  {
    if |d| > 0 {
      assert (d + rest)[1..] == d[1..] + rest;
      DigitPrefixOfDigits(d[1..], rest);
    } else {
      assert d + rest == rest;
    }
  }

  /** Digits followed by a non-digit read back as their value. */
  lemma ParseDigitsOfDigits(d: string, rest: string)
    requires |d| > 0 && AllDigits(d)
    requires |rest| > 0 ==> !IsDigit(rest[0])
    ensures ParseDigits(d + rest) == Some(DigitsValue(d))
  {
    DigitPrefixOfDigits(d, rest);
  }

  /** Past the whitespace, digits followed by a non-digit read back as
      their value. */
  lemma ParseTrimmedDigits(d: string, rest: string)
    requires |d| > 0 && AllDigits(d)
    requires |rest| > 0 ==> !IsDigit(rest[0])
    ensures ParseTrimmed(d + rest) == Some(DigitsValue(d))
  {
    ParseDigitsOfDigits(d, rest);
    assert (d + rest)[0] == d[0];
  }

  /** Past the whitespace, a leading `-` negates what the digits after it
      read as. */
  lemma ParseTrimmedMinus(u: string)
    ensures ParseTrimmed("-" + u) == Negate(ParseDigits(u))
  {
    assert ("-" + u)[1..] == u;
  }

  /** Past the whitespace, `-` and the digits of `m` read back as `-m`. */
  lemma ParseTrimmedShowNegative(m: nat, rest: string)
    requires |rest| > 0 ==> !IsDigit(rest[0])
    ensures ParseTrimmed("-" + (ShowNat(m) + rest)) == Some(-(m as int))
  {
    ParseTrimmedMinus(ShowNat(m) + rest);
    ParseDigitsOfDigits(ShowNat(m), rest);
    DigitsValueOfShowNat(m);
  }

  /** Past the whitespace, the sign and digits of `n` read back as `n`. */
  lemma ParseTrimmedShowInt(n: int, rest: string)
    requires |rest| > 0 ==> !IsDigit(rest[0])
    ensures ParseTrimmed(ShowInt(n) + rest) == Some(n)
  {
    if n < 0 {
      assert ShowInt(n) + rest == "-" + (ShowNat(-n) + rest);
      ParseTrimmedShowNegative(-n, rest);
    } else {
      ParseTrimmedDigits(ShowNat(n), rest);
      DigitsValueOfShowNat(n);
    }
  }

  /** `parseInt` reads back the decimal text of any integer, whatever
      non-digit text follows it: `parseInt("12abc")` is 12. */
  lemma ParseShowInt(n: int, rest: string)
    requires |rest| > 0 ==> !IsDigit(rest[0])
    ensures ParseInt(ShowInt(n) + rest) == Some(n)
  {
    var s := ShowInt(n) + rest;
    assert s[0] == ShowInt(n)[0];
    assert TrimStart(s) == s;
    ParseTrimmedShowInt(n, rest);
  }

  /** `parseInt` reads back the decimal text of any integer. */
  lemma ParseShowIntExact(n: int)
    ensures ParseInt(ShowInt(n)) == Some(n)
  {
    ParseShowInt(n, "");
    assert ShowInt(n) + "" == ShowInt(n);
  }

  /** Trimming looks through any amount of leading whitespace. */
  lemma {:induction false} TrimStartSkipsWhitespace(w: string, s: string)
    requires forall i :: 0 <= i < |w| ==> IsWhitespace(w[i])
    ensures TrimStart(w + s) == TrimStart(s)
    decreases |w|
  {
    if |w| > 0 {
      assert (w + s)[0] == w[0];
      assert (w + s)[1..] == w[1..] + s;
      TrimStartSkipsWhitespace(w[1..], s);
    } else {
      assert w + s == s;
    }
  }

  /** Leading whitespace never changes what `parseInt` reads. */
  lemma ParseSkipsWhitespace(w: string, s: string)
    requires forall i :: 0 <= i < |w| ==> IsWhitespace(w[i])
    ensures ParseInt(w + s) == ParseInt(s)
  {
    TrimStartSkipsWhitespace(w, s);
  }

  /** Text whose first non-blank character, after an optional sign, is not
      a digit is `NaN`. */
  lemma ParseNoDigits(s: string)
    requires var t := TrimStart(s);
             var u := if |t| > 0 && (t[0] == '-' || t[0] == '+') then t[1..] else t;
             |u| == 0 || !IsDigit(u[0])
    ensures ParseInt(s) == None
  {
    var t := TrimStart(s);
    var u := if |t| > 0 && (t[0] == '-' || t[0] == '+') then t[1..] else t;
    assert ParseDigits(u) == None;
  }

  /** A negative result needs a leading `-`: unsigned text never parses to
      a negative number. */
  lemma ParseUnsignedIsNatural(s: string)
    requires forall i :: 0 <= i < |s| ==> s[i] != '-'
    ensures ParseInt(s).Some? ==> ParseInt(s).value >= 0
  {
    var t := TrimStart(s);
    if |t| > 0 {
      assert t[0] == s[|s| - |t|];
    }
  }

  lemma ParseDecimalExample()
    ensures ParseInt("42") == Some(42)
  {
    assert ShowInt(42) == "42" by {
      assert ShowNat(42) == ShowNat(4) + [DigitChar(2)];
    }
    ParseShowIntExact(42);
  }

  /** Whitespace then a single digit reads as that digit. */
  lemma ParseBlankThenDigit(w: string, c: char)
    requires forall i :: 0 <= i < |w| ==> IsWhitespace(w[i])
    requires IsDigit(c)
    ensures ParseInt(w + [c]) == Some(DigitValue(c))
  {
    ParseSkipsWhitespace(w, [c]);
    assert TrimStart([c]) == [c];
    ParseTrimmedDigits([c], "");
    assert [c] + "" == [c];
    assert [c][..0] == [];
  }

  lemma ParseBlankPrefixExample()
    ensures ParseInt("  7") == Some(7)
  {
    ParseBlankThenDigit("  ", '7');
    assert "  " + ['7'] == "  7";
  }

  lemma ParseTrailingTextExample()
    ensures ParseInt("3abc") == Some(3)
  {
    ParseShowInt(3, "abc");
    assert ShowInt(3) + "abc" == "3abc";
  }

  lemma ParseNegativeExample()
    ensures ParseInt("-1") == Some(-1)
  {
    assert TrimStart("-1") == "-1";
    ParseTrimmedMinus("1");
    assert "-" + "1" == "-1";
    ParseDigitsOfDigits("1", "");
    assert "1" + "" == "1";
  }

  lemma ParseRejectsExamples()
    ensures ParseInt("") == None
    ensures ParseInt("abc") == None
    ensures ParseInt("-") == None
  {
    assert !IsWhitespace('a') && !IsWhitespace('-');
    assert TrimStart("abc") == "abc";
    assert DigitPrefix("abc") == [];
    assert TrimStart("-") == "-";
    assert DigitPrefix("-"[1..]) == [];
  }
}
