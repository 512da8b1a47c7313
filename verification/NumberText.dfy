/** itoa of stdlib.hpp: printing a 64-bit number, and the parser that inverts it. */
module NumberText {
  import opened Words
  import opened Sequences

  /** The base enumeration. */
  type Base = b: int | b == 2 || b == 8 || b == 10 || b == 16 witness 2

  const INT64_MIN: int := -0x8000_0000_0000_0000
  const INT64_MAX: int := 0x7fff_ffff_ffff_ffff

  type Signed = x: int | INT64_MIN <= x <= INT64_MAX

  function DigitChar(d: int): char
    requires 0 <= d < 16
  {
    if d < 10 then '0' + d as char else 'a' + (d - 10) as char
  }

  /** Dividing by one of the four bases: the rest, and the last digit. */
  function Rest(u: nat, b: Base): (q: nat)
    ensures u > 0 ==> q < u
  {
    if b == 2 then u / 2 else if b == 8 then u / 8 else if b == 10 then u / 10 else u / 16
  }

  function Last(u: nat, b: Base): (d: nat)
    ensures d < b
  {
    if b == 2 then u % 2 else if b == 8 then u % 8 else if b == 10 then u % 10 else u % 16
  }

  /** The digits of a number, most significant first; none for zero. */
  function Digits(u: nat, b: Base): string {
    if u == 0 then "" else Digits(Rest(u, b), b) + [DigitChar(Last(u, b))]
  }

  /** The number whose digits are printed. */
  function Magnitude(value: int, b: Base): nat {
    if b == 10 && value < 0 then -value else value % TWO_64
  }

  /** What itoa prints: only decimal numbers have a sign, all others are those of the unsigned word. */
  function Text(value: Signed, b: Base): string {
    if value == 0 then "0"
    else (if b == 10 && value < 0 then "-" else "") + Digits(Magnitude(value, b), b)
  }

  // ----- parsing -----

  function DigitValue(c: char): int {
    if '0' <= c <= '9' then c as int - '0' as int
    else if 'a' <= c <= 'f' then c as int - 'a' as int + 10
    else 16
  }

  predicate IsDigit(c: char, b: Base) {
    DigitValue(c) < b
  }

  /** The value of a string of digits. */
  function Value(s: string, b: Base): int {
    if s == "" then 0 else Value(s[..|s| - 1], b) * b + DigitValue(s[|s| - 1])
  }

  function Parse(s: string, b: Base): int {
    if s != "" && s[0] == '-' then -Value(s[1..], b) else Value(s, b)
  }

  /** All digits, the first of them not zero. */
  predicate Canonical(s: string, b: Base) {
    (forall k :: 0 <= k < |s| ==> IsDigit(s[k], b)) && (s != "" ==> s[0] != '0')
  }

  lemma DigitRoundTrip(d: int)
    requires 0 <= d < 16
    ensures DigitValue(DigitChar(d)) == d && (DigitChar(d) == '0' <==> d == 0) && DigitChar(d) != '-'
  {
  }

  /** These are the machine's operators. */
  lemma DivFacts(u: nat, b: Base)
    ensures u / b == Rest(u, b) && u % b == Last(u, b)
    ensures u == Rest(u, b) * b + Last(u, b)
  {
    if b == 2 {
    } else if b == 8 {
    } else if b == 10 {
    }
  }

  lemma RestUnique(q: nat, d: nat, b: Base)
    requires d < b
    ensures Rest(q * b + d, b) == q && Last(q * b + d, b) == d
  {
    if b == 2 {
    } else if b == 8 {
    } else if b == 10 {
    }
  }

  lemma {:induction false} DigitsParse(u: nat, b: Base)
    ensures Value(Digits(u, b), b) == u && Canonical(Digits(u, b), b)
    ensures u > 0 ==> Digits(u, b) != ""
  {
    if u > 0 {
      DivFacts(u, b);
      DigitsParse(Rest(u, b), b);
      DigitRoundTrip(Last(u, b));
      var s := Digits(Rest(u, b), b);
      assert Digits(u, b)[..|s|] == s;
    }
  }

  lemma NoMinus(s: string, b: Base)
    requires Canonical(s, b) && s != ""
    ensures s[0] != '-'
  {
    assert IsDigit(s[0], b);
  }

  lemma ZeroParses(b: Base)
    ensures Parse("0", b) == 0
  {
    assert "0"[..0] == "";
  }

  /** Parsing inverts itoa: for decimals the number itself, in other bases the unsigned word. */
  lemma TextParses(value: Signed, b: Base)
    ensures Parse(Text(value, b), b) == if b == 10 then value else value % TWO_64
  {
    hide Digits, Value, Canonical;
    ZeroParses(b);
    if value != 0 {
      var digits := Digits(Magnitude(value, b), b);
      DigitsParse(Magnitude(value, b), b);
      NoMinus(digits, b);
      assert ("-" + digits)[1..] == digits;
      assert "" + digits == digits;
    }
  }

  /** The text is never empty, has a minus sign exactly for negative decimals, and no leading zero but for zero itself. */
  lemma TextIsCanonical(value: Signed, b: Base)
    ensures var s := Text(value, b);
      var digits := if b == 10 && value < 0 then s[1..] else s;
      && s != "" && (s[0] == '-' <==> b == 10 && value < 0)
      && digits != "" && (forall k :: 0 <= k < |digits| ==> IsDigit(digits[k], b))
      && (digits[0] == '0' <==> digits == "0") && (digits == "0" <==> value == 0)
  {
    hide Digits, Value;
    if value != 0 {
      var digits := Digits(Magnitude(value, b), b);
      DigitsParse(Magnitude(value, b), b);
      NoMinus(digits, b);
      assert ("-" + digits)[1..] == digits && "" + digits == digits;
    }
  }

  lemma {:induction false} ValuePositive(s: string, b: Base)
    requires Canonical(s, b) && s != ""
    ensures Value(s, b) > 0
  {
    assert IsDigit(s[0], b);
    if |s| > 1 {
      ValuePositive(s[..|s| - 1], b);
    }
  }

  lemma DigitsStep(q: nat, d: nat, b: Base)
    requires d < b && q * b + d > 0
    ensures Digits(q * b + d, b) == Digits(q, b) + [DigitChar(d)]
  {
    hide DigitChar;
    RestUnique(q, d, b);
  }

  /** ... and itoa inverts parsing: its digits are the only canonical ones for a number. */
  lemma {:induction false} OnlyDigits(s: string, b: Base)
    requires Canonical(s, b)
    ensures Value(s, b) >= 0 && Digits(Value(s, b), b) == s
  {
    hide Digits;
    NoDigits(b);
    if s != "" {
      var t, c := s[..|s| - 1], s[|s| - 1];
      assert IsDigit(c, b);
      OnlyDigits(t, b);
      ValuePositive(s, b);
      DigitsStep(Value(t, b), DigitValue(c), b);
      assert DigitChar(DigitValue(c)) == c;
      assert s == t + [c];
    }
  }

  // ----- length -----

  function Power(b: Base, k: nat): nat {
    if k == 0 then 1 else b * Power(b, k - 1)
  }

  lemma {:induction false} DigitsLength(u: nat, b: Base, k: nat)
    ensures |Digits(u, b)| <= k <==> u < Power(b, k)
  {
    if u > 0 && k > 0 {
      DigitsLength(Rest(u, b), b, k - 1);
      RestBelow(u, b, Power(b, k - 1));
    } else if u == 0 {
      PowerPositive(b, k);
    }
  }

  lemma {:induction false} PowerPositive(b: Base, k: nat)
    ensures Power(b, k) > 0
  {
    if k > 0 {
      PowerPositive(b, k - 1);
    }
  }

  lemma RestBelow(u: nat, b: Base, n: nat)
    ensures Rest(u, b) < n <==> u < b * n
  {
    if b == 2 {
    } else if b == 8 {
    } else if b == 10 {
    }
  }

  lemma {:induction false} PowerSum(b: Base, j: nat, k: nat)
    ensures Power(b, j + k) == Power(b, j) * Power(b, k)
  {
    if j > 0 {
      PowerSum(b, j - 1, k);
      Associate(b, Power(b, j - 1), Power(b, k));
      assert Power(b, j) == b * Power(b, j - 1);
      assert Power(b, j + k) == b * Power(b, j - 1 + k);
    }
  }

  lemma Associate(x: int, y: int, z: int)
    ensures x * (y * z) == (x * y) * z
  {
  }

  lemma PowerValues()
    ensures Power(10, 19) == 1_0000_0000_0000_0000_000 && Power(16, 16) == TWO_64
    ensures Power(8, 22) == 4 * TWO_64 && Power(2, 64) == TWO_64
  {
    PowerSum(10, 4, 4);
    PowerSum(10, 8, 8);
    PowerSum(10, 16, 3);
    PowerSum(16, 4, 4);
    PowerSum(16, 8, 8);
    PowerSum(8, 4, 4);
    PowerSum(8, 8, 8);
    PowerSum(8, 16, 6);
    PowerSum(8, 3, 3);
    PowerSum(2, 4, 4);
    PowerSum(2, 8, 8);
    PowerSum(2, 16, 16);
    PowerSum(2, 32, 32);
  }

  /** The bytes itoa writes, with the terminator: at most 21 in decimal, 17 in hexadecimal, and more in no base than
      65. */
  lemma TextLength(value: Signed, b: Base)
    requires b == 10 ==> value > INT64_MIN
    ensures b == 10 ==> |Text(value, b)| + 1 <= 21
    ensures b == 16 ==> |Text(value, b)| + 1 <= 17
    ensures b == 8 ==> |Text(value, b)| + 1 <= 23
    ensures b == 2 ==> |Text(value, b)| + 1 <= 65
  {
    var u := Magnitude(value, b);
    PowerValues();
    DigitsLength(u, b, if b == 10 then 19 else if b == 16 then 16 else if b == 8 then 22 else 64);
  }

  // ----- the method -----

  /** The buffer after itoa: the text, its terminator, and what was there behind them. */
  ghost predicate Printed(buffer: seq<char>, before: seq<char>, text: string) {
    && |text| + 1 <= |buffer| == |before|
    && buffer == text + ['\0'] + before[|text| + 1..]
  }

  /** The loop over the digits, which come out last one first. */
  method PutDigits(buffer: array<char>, uvalue: nat, b: Base) returns (i: nat)
    requires |Digits(uvalue, b)| <= buffer.Length
    modifies buffer
    ensures i == |Digits(uvalue, b)| && buffer[..i] == Reversed(Digits(uvalue, b))
    ensures forall k :: i <= k < buffer.Length ==> buffer[k] == old(buffer[k])
  {
    hide Digits, DigitChar, Reversed;
    NoDigits(b);
    var u: nat := uvalue;
    ghost var done := "";
    i := 0;
    while u != 0
      invariant Digits(uvalue, b) == Digits(u, b) + done
      invariant i == |done| <= buffer.Length && buffer[..i] == Reversed(done)
      invariant forall k :: i <= k < buffer.Length ==> buffer[k] == old(buffer[k])
    {
      LastDigitFirst(u, b);
      DivFacts(u, b);
      var digit := u % b;
      buffer[i] := CharOf(digit);
      Prepend(done, DigitChar(digit));
      assert buffer[..i + 1] == buffer[..i] + [DigitChar(digit)];
      done := [DigitChar(digit)] + done;
      i := i + 1;
      u := u / b;
    }
    assert Digits(uvalue, b) == done;
  }

  /** The expression that makes a digit a character. */
  method CharOf(digit: int) returns (c: char)
    requires 0 <= digit < 16
    ensures c == DigitChar(digit)
  {
    c := if digit < 10 then '0' + digit as char else 'a' + (digit - 10) as char;
  }

  lemma NoDigits(b: Base)
    ensures Digits(0, b) == ""  && Reversed<char>("") == ""
  {
  }

  lemma LastDigitFirst(u: nat, b: Base)
    requires u > 0
    ensures Digits(u, b) == Digits(Rest(u, b), b) + [DigitChar(Last(u, b))]
  {
  }

  lemma Prepend(s: string, c: char)
    ensures Reversed([c] + s) == Reversed(s) + [c]
  {
    assert ([c] + s)[1..] == s;
  }

  /** The final loop, in place: reverses the first n characters. */
  method ReverseText(buffer: array<char>, n: nat)
    requires 0 < n <= buffer.Length
    modifies buffer
    ensures buffer[..n] == Reversed(old(buffer[..n])) 
    ensures forall k :: n <= k < buffer.Length ==> buffer[k] == old(buffer[k])
  {
    var i := n - 1;
    var j := 0;
    while j < i
      invariant 0 <= j && i == n - 1 - j && j <= i + 1
      invariant forall k :: 0 <= k < j || i < k < n ==> buffer[k] == old(buffer[n - 1 - k])
      invariant forall k :: j <= k <= i ==> buffer[k] == old(buffer[k])
      invariant forall k :: n <= k < buffer.Length ==> buffer[k] == old(buffer[k])
      decreases i - j
    {
      var temp := buffer[j];
      buffer[j] := buffer[i];
      buffer[i] := temp;
      j, i := j + 1, i - 1;
    }
    assert forall k :: 0 <= k < n ==> buffer[k] == old(buffer[n - 1 - k]);
  }

  /** itoa. Negating the least number overflows, so it cannot be printed in decimal; and nothing checks the size of the
      buffer once it is larger than one. */
  method Itoa(buffer: array<char>, size: nat, value: Signed, b: Base)
    requires size <= buffer.Length && (b == 10 ==> value > INT64_MIN)
    requires size > 1 ==> |Text(value, b)| + 1 <= buffer.Length
    modifies buffer
    ensures if size <= 1 then buffer[..] == old(buffer[..]) else Printed(buffer[..], old(buffer[..]), Text(value, b))
  {
    if size <= 1 {
      return;
    }
    if value == 0 {
      buffer[0] := '0';
      buffer[1] := '\0';
      return;
    }
    var negative := b == 10 && value < 0;
    var uvalue := Magnitude(value, b);
    PrintMagnitude(buffer, uvalue, b, negative, Text(value, b));
  }

  /** itoa for numbers other than zero. */
  method PrintMagnitude(buffer: array<char>, uvalue: nat, b: Base, negative: bool, ghost text: string)
    requires uvalue > 0 && text == (if negative then "-" else "") + Digits(uvalue, b)
    requires |text| + 1 <= buffer.Length
    modifies buffer
    ensures Printed(buffer[..], old(buffer[..]), text)
  {
    hide Digits, Reversed;
    DigitsParse(uvalue, b);
    var i := PutDigits(buffer, uvalue, b);
    if negative {
      Prepend(Digits(uvalue, b), '-');
      assert text == ['-'] + Digits(uvalue, b);
      buffer[i] := '-';
      i := i + 1;
      assert buffer[..i] == buffer[..i - 1] + ['-'];
    } else {
      assert text == Digits(uvalue, b);
    }
    Finish(buffer, i, text);
  }

  /** The end of itoa: terminates the text and turns it round. */
  method Finish(buffer: array<char>, i: nat, ghost text: string)
    requires 0 < i == |text| < buffer.Length && buffer[..i] == Reversed(text)
    modifies buffer
    ensures Printed(buffer[..], old(buffer[..]), text)
  {
    hide Reversed;
    buffer[i] := '\0';
    assert buffer[..i] == Reversed(text);
    ReverseText(buffer, i);
    ReversedTwice(text);
    assert buffer[..] == buffer[..i] + [buffer[i]] + buffer[i + 1..];
    assert buffer[i + 1..] == old(buffer[..])[i + 1..];
  }

  lemma ReversedTwice<T>(s: seq<T>)
    ensures Reversed(Reversed(s)) == s
  {
  }
}
