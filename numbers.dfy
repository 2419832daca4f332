/**
  `check_uint` and the part of Python's `int()` it relies on: a fragment is a
  number when `int()` accepts it and the value is not negative.
*/
module Numbers {
  import opened Wrappers
  import opened PyStr

  predicate IsDigit(c: char) {
    '0' <= c <= '9'
  }

  predicate AllDigits(d: string) {
    forall i :: 0 <= i < |d| ==> IsDigit(d[i])
  }

  /**
    The white space `int()` skips around a numeral. `int()` turns every
    non-ASCII `isspace()` character into a blank first and then skips ASCII
    white space, so the ASCII separators U+001C..U+001F, which `isspace()`
    accepts, are not skipped.
  */
  predicate IsIntSpace(c: char) {
    IsSpace(c) && !(0x1C <= c as int <= 0x1F)
  }

  /** The digits of `s`, in order, every other character dropped. */
  function Digits(s: string): (d: string)
    ensures AllDigits(d) && |d| <= |s|
  {
    if s == [] then []
    else Digits(s[..|s| - 1]) + (if IsDigit(s[|s| - 1]) then [s[|s| - 1]] else [])
  }

  /** The number a string of decimal digits denotes (leading zeros allowed). */
  function DecimalValue(d: string): nat
    requires AllDigits(d)
  {
    if d == [] then 0 else 10 * DecimalValue(d[..|d| - 1]) + (d[|d| - 1] as int - '0' as int)
  }

  /** `str(n)` for a non-negative integer. */
  function Decimal(n: nat): (d: string)
    ensures d != [] && AllDigits(d)
  {
    if n < 10 then [('0' as int + n) as char]
    else Decimal(n / 10) + [('0' as int + n % 10) as char]
  }

  /**
    A base-10 numeral as `int()` accepts it: ASCII digits, with single
    underscores allowed between two digits.
  */
  predicate IsNumeral(t: string) {
    && |t| > 0
    && IsDigit(t[0])
    && IsDigit(t[|t| - 1])
    && (forall i :: 0 <= i < |t| ==> IsDigit(t[i]) || t[i] == '_')
    && (forall i :: 0 <= i < |t| - 1 ==> t[i] == '_' ==> t[i + 1] != '_')
  }

  /** A sign (optional) and a numeral: what `int()` reads once the white space is gone. */
  function ParseSigned(t: string): Option<int> {
    if |t| > 0 && (t[0] == '+' || t[0] == '-') then
      if IsNumeral(t[1..]) then
        var v: int := DecimalValue(Digits(t[1..]));
        Some(if t[0] == '-' then -v else v)
      else None
    else if IsNumeral(t) then Some(DecimalValue(Digits(t)))
    else None
  }

  /**
    `int(s)` for a `str` argument: white space, an optional sign, a numeral,
    white space. Any other string makes `int()` raise ValueError (`None`).
  */
  function ParseInt(s: string): Option<int> {
    ParseSigned(StripBy(s, IsIntSpace))
  }

  /** `check_uint(s)`: `Some(value)` when `int(s)` succeeds with a value >= 0, else `None`. */
  function CheckUint(s: string): Option<nat> {
    match ParseInt(s)
    case Some(i) => if i < 0 then None else Some(i)
    case None => None
  }

  lemma {:induction false} DigitsAppend(a: string, b: string)
    ensures Digits(a + b) == Digits(a) + Digits(b)
  {
    if b != [] {
      assert (a + b)[..|a + b| - 1] == a + b[..|b| - 1];
      DigitsAppend(a, b[..|b| - 1]);
    } else {
      assert a + b == a;
    }
  }

  lemma {:induction false} DigitsOfDigits(d: string)
    requires AllDigits(d)
    ensures Digits(d) == d
  {
    if d != [] {
      DigitsOfDigits(d[..|d| - 1]);
    }
  }

  lemma {:induction false} DigitsOfNonDigits(s: string)
    requires forall i :: 0 <= i < |s| ==> !IsDigit(s[i])
    ensures Digits(s) == []
  {
    if s != [] {
      DigitsOfNonDigits(s[..|s| - 1]);
    }
  }

  /** Reading back what `str` prints gives the number: the partner of `Decimal`. */
  lemma {:induction false} DecimalValueOfDecimal(n: nat)
    ensures DecimalValue(Decimal(n)) == n
  {
    if n >= 10 {
      var d := Decimal(n);
      assert d[..|d| - 1] == Decimal(n / 10);
      DecimalValueOfDecimal(n / 10);
    }
  }

  lemma NumeralHasDigits(b: string)
    requires IsNumeral(b)
    ensures Digits(b) != []
  {
    assert b == b[..1] + b[1..];
    assert b[..1] == [] + [b[0]];
    assert Digits(b[..1]) == Digits([]) + [b[0]];
    DigitsAppend(b[..1], b[1..]);
  }

  lemma DigitsSkipSign(t: string)
    requires |t| > 0 && !IsDigit(t[0])
    ensures Digits(t) == Digits(t[1..])
  {
    assert t == [t[0]] + t[1..];
    assert [t[0]] == [] + [t[0]];
    assert Digits([t[0]]) == Digits([]) + [];
    DigitsAppend([t[0]], t[1..]);
  }

  /** A signed numeral holds only digits, underscores and the sign, and its value is that of its digits. */
  lemma ParseSignedSound(t: string)
    requires ParseSigned(t).Some?
    ensures forall i :: 0 <= i < |t| ==> IsNumeralChar(t[i])
    ensures forall i :: 0 < i < |t| ==> IsDigit(t[i]) || t[i] == '_'
    ensures Digits(t) != []
    ensures ParseSigned(t).value == DecimalValue(Digits(t)) as int || ParseSigned(t).value == -(DecimalValue(Digits(t)) as int)
  {
    if t[0] == '+' || t[0] == '-' {
      var body := t[1..];
      assert IsNumeral(body);
      DigitsSkipSign(t);
      NumeralHasDigits(body);
      forall i | 0 < i < |t| ensures IsDigit(t[i]) || t[i] == '_' {
        assert t[i] == body[i - 1];
      }
    } else {
      NumeralHasDigits(t);
    }
  }

  /** What `int()` reads once the white space is gone is exactly an optional sign followed by a numeral. */
  lemma ParseSignedExact(t: string) returns (sign: string, d: string)
    requires ParseSigned(t).Some?
    ensures t == sign + d
    ensures sign == "" || sign == "+" || sign == "-"
    ensures IsNumeral(d)
    ensures ParseSigned(t).value ==
      if sign == "-" then -(DecimalValue(Digits(d)) as int) else DecimalValue(Digits(d))
  {
    if t[0] == '+' || t[0] == '-' {
      sign, d := t[..1], t[1..];
      assert sign == [t[0]];
    } else {
      sign, d := "", t;
    }
  }

  /**
    The inputs `check_uint` accepts, taken apart: white space `int()` skips,
    an optional sign, a numeral, white space again. The value is the number
    the numeral's digits spell, and a `-` is only accepted in front of zero.
    With `CheckUintNumeral`, this says which inputs are accepted in both
    directions: `"5 5"`, `"5_"`, `"1__0"` and `"1+2"` have no such form.
  */
  lemma CheckUintExact(s: string) returns (pre: string, sign: string, d: string, post: string)
    requires CheckUint(s).Some?
    ensures s == pre + sign + d + post
    ensures forall i :: 0 <= i < |pre| ==> IsIntSpace(pre[i])
    ensures forall i :: 0 <= i < |post| ==> IsIntSpace(post[i])
    ensures sign == "" || sign == "+" || sign == "-"
    ensures IsNumeral(d)
    ensures CheckUint(s).value == DecimalValue(Digits(d))
    ensures sign == "-" ==> CheckUint(s).value == 0
  {
    var t := StripBy(s, IsIntSpace);
    pre, post := StripByParts(s, IsIntSpace);
    sign, d := ParseSignedExact(t);
    AppendAssoc(pre, sign, d);
  }

  /**
    Every numeral, with white space around it and an optional sign in front,
    is accepted with the value of its digits, except after a `-` when that
    value is not zero.
  */
  lemma CheckUintNumeral(pre: string, sign: string, d: string, post: string)
    requires forall i :: 0 <= i < |pre| ==> IsIntSpace(pre[i])
    requires forall i :: 0 <= i < |post| ==> IsIntSpace(post[i])
    requires sign == "" || sign == "+" || sign == "-"
    requires IsNumeral(d)
    ensures CheckUint(pre + sign + d + post) ==
      if sign == "-" && DecimalValue(Digits(d)) != 0 then None else Some(DecimalValue(Digits(d)))
  {
    var t := sign + d;
    SignedNumeralEnds(sign, d);
    AppendAssoc(pre, sign, d);
    StripByPadded(pre, t, post, IsIntSpace);
    ParseSignedNumeral(sign, d);
  }

  /** A signed numeral neither starts nor ends with white space. */
  lemma SignedNumeralEnds(sign: string, d: string)
    requires sign == "" || sign == "+" || sign == "-"
    requires IsNumeral(d)
    ensures var t := sign + d; t != [] && !IsIntSpace(t[0]) && !IsIntSpace(t[|t| - 1])
  {
    var t := sign + d;
    assert t[|t| - 1] == d[|d| - 1];
    assert t[0] == if sign == "" then d[0] else sign[0];
  }

  /** Leading zeros are accepted: `check_uint("007")` is 7. */
  lemma CheckUintLeadingZeros()
    ensures CheckUint("007") == Some(7)
  {
    ValueOfZeroZeroSeven();
    CheckUintNumeral("", "", "007", "");
    assert "" + "" + "007" + "" == "007";
  }

  lemma ValueOfZeroZeroSeven()
    ensures IsNumeral("007") && DecimalValue(Digits("007")) == 7
  {
    DigitsOfDigits("007");
    DecimalValueOfZeroZeroSeven();
  }

  lemma DecimalValueOfZeroZeroSeven()
    ensures DecimalValue("007") == 7
  {
    assert "007"[..2] == "00" && "00"[..1] == "0" && "0"[..0] == [];
    assert DecimalValue("0") == 0;
    assert DecimalValue("00") == 0;
  }

  /** White space around the number and an underscore between digits are accepted: `check_uint(" 1_000\n")` is 1000. */
  lemma CheckUintUnderscore()
    ensures CheckUint(" 1_000\n") == Some(1000)
  {
    ValueOfOneThousand();
    CheckUintNumeral(" ", "", "1_000", "\n");
    assert " " + "" + "1_000" + "\n" == " 1_000\n";
  }

  lemma ValueOfOneThousand()
    ensures IsNumeral("1_000") && DecimalValue(Digits("1_000")) == 1000
  {
    DigitsOfOneThousand();
    assert "1000"[..3] == "100" && "100"[..2] == "10" && "10"[..1] == "1" && "1"[..0] == [];
  }

  lemma DigitsOfOneThousand()
    ensures Digits("1_000") == "1000"
  {
    assert "1_000" == "1_" + "000";
    DigitsAppend("1_", "000");
    assert "1_"[..1] == "1" && "1"[..0] == [];
    DigitsOfDigits("000");
  }

  /** A blank inside the number, a trailing underscore or a doubled one make `int()` raise. */
  lemma CheckUintRejectsExamples()
    ensures CheckUint("5 5") == None
    ensures CheckUint("5_") == None
    ensures CheckUint("1__0") == None
  {
    NotPadded("5 5");
    NotPadded("5_");
    NotPadded("1__0");
    assert "1__0"[1] == '_' && "1__0"[2] == '_';
  }

  /** A text that neither starts nor ends with white space is not changed by skipping it. */
  lemma NotPadded(s: string)
    requires |s| > 0 && !IsIntSpace(s[0]) && !IsIntSpace(s[|s| - 1])
    ensures ParseInt(s) == ParseSigned(s)
  {
    assert [] + s + [] == s;
    StripByPadded([], s, [], IsIntSpace);
  }

  /**
    What `check_uint` accepts: every character of `s` is white space, a digit,
    an underscore or a sign, there is at least one digit, and the value is the
    number the digits of `s` spell, read in order.
  */
  lemma CheckUintSound(s: string)
    requires CheckUint(s).Some?
    ensures forall i :: 0 <= i < |s| ==> IsIntSpace(s[i]) || IsNumeralChar(s[i])
    ensures Digits(s) != []
    ensures CheckUint(s).value == DecimalValue(Digits(s))
  {
    var t := StripBy(s, IsIntSpace);
    var pre, post := StripByParts(s, IsIntSpace);
    ParseSignedSound(t);
    DigitsPadded(pre, t, post);
    CharsPadded(pre, t, post);
  }

  predicate IsNumeralChar(c: char) {
    IsDigit(c) || c == '_' || c == '+' || c == '-'
  }

  lemma DigitsPadded(pre: string, t: string, post: string)
    requires forall i :: 0 <= i < |pre| ==> IsIntSpace(pre[i])
    requires forall i :: 0 <= i < |post| ==> IsIntSpace(post[i])
    ensures Digits(pre + t + post) == Digits(t)
  {
    DigitsOfNonDigits(pre);
    DigitsOfNonDigits(post);
    DigitsAppend(pre, t);
    DigitsAppend(pre + t, post);
  }

  lemma CharsPadded(pre: string, t: string, post: string)
    requires forall i :: 0 <= i < |pre| ==> IsIntSpace(pre[i])
    requires forall i :: 0 <= i < |post| ==> IsIntSpace(post[i])
    requires forall i :: 0 <= i < |t| ==> IsNumeralChar(t[i])
    ensures forall i :: 0 <= i < |pre + t + post| ==> IsIntSpace((pre + t + post)[i]) || IsNumeralChar((pre + t + post)[i])
  {
    var s := pre + t + post;
    forall i | 0 <= i < |s| ensures IsIntSpace(s[i]) || IsNumeralChar(s[i]) {
      if i < |pre| {
        assert s[i] == pre[i];
      } else if i < |pre| + |t| {
        assert s[i] == t[i - |pre|];
      } else {
        assert s[i] == post[i - |pre| - |t|];
      }
    }
  }

  /** The signed numerals `str` prints, read back. */
  lemma ParseSignedDecimal(n: nat, sign: string)
    requires sign == "" || sign == "+" || sign == "-"
    ensures ParseSigned(sign + Decimal(n)) == Some(if sign == "-" then -(n as int) else n)
  {
    DecimalNumeral(n);
    ParseSignedNumeral(sign, Decimal(n));
  }

  /** A numeral with an optional sign in front reads as the value of its digits, negated after `-`. */
  lemma ParseSignedNumeral(sign: string, d: string)
    requires sign == "" || sign == "+" || sign == "-"
    requires IsNumeral(d)
    ensures ParseSigned(sign + d) ==
      Some(if sign == "-" then -(DecimalValue(Digits(d)) as int) else DecimalValue(Digits(d)))
  {
    var v := DecimalValue(Digits(d));
    if sign == "" {
      assert sign + d == d;
      assert IsDigit(d[0]);
      assert ParseSigned(d) == Some(v);
    } else {
      var t := sign + d;
      assert t[0] == sign[0] && (t[0] == '+' || t[0] == '-');
      assert t[1..] == d;
      assert ParseSigned(t) == Some(if t[0] == '-' then -(v as int) else v);
    }
  }

  /** What `str` prints is a numeral whose digits read back as the number. */
  lemma DecimalNumeral(n: nat)
    ensures IsNumeral(Decimal(n))
    ensures DecimalValue(Digits(Decimal(n))) == n
  {
    DigitsOfDigits(Decimal(n));
    DecimalValueOfDecimal(n);
  }

  /**
    `check_uint` accepts what `str` prints for any non-negative integer,
    with white space around it and an optional `+` in front, and gives back
    the integer.
  */
  lemma CheckUintDecimal(n: nat, pre: string, sign: string, post: string)
    requires forall i :: 0 <= i < |pre| ==> IsIntSpace(pre[i])
    requires forall i :: 0 <= i < |post| ==> IsIntSpace(post[i])
    requires sign == "" || sign == "+"
    ensures CheckUint(pre + sign + Decimal(n) + post) == Some(n)
  {
    var d := Decimal(n);
    var t := sign + d;
    assert t[|t| - 1] == d[|d| - 1];
    assert pre + sign + d + post == pre + t + post;
    StripByPadded(pre, t, post, IsIntSpace);
    ParseSignedDecimal(n, sign);
  }

  /** `check_uint(str(n))` is `n`. */
  lemma CheckUintOfDecimal(n: nat)
    ensures CheckUint(Decimal(n)) == Some(n)
  {
    assert "" + "" + Decimal(n) + "" == Decimal(n);
    CheckUintDecimal(n, "", "", "");
  }

  /**
    A minus sign makes `check_uint` fail for every non-zero number; `-0` is
    accepted as 0, because `int('-0')` is 0, which is not negative.
  */
  lemma CheckUintNegative(n: nat, pre: string, post: string)
    requires forall i :: 0 <= i < |pre| ==> IsIntSpace(pre[i])
    requires forall i :: 0 <= i < |post| ==> IsIntSpace(post[i])
    ensures CheckUint(pre + "-" + Decimal(n) + post) == if n == 0 then Some(0) else None
  {
    var d := Decimal(n);
    var t := "-" + d;
    assert t[|t| - 1] == d[|d| - 1];
    assert pre + "-" + d + post == pre + t + post;
    StripByPadded(pre, t, post, IsIntSpace);
    ParseSignedDecimal(n, "-");
  }
}
