/** Numbers printed and read as plain decimal text. */
module Decimals {

  function DecimalWidth(n: nat): (w: nat)
    ensures w >= 1
  {
    if n < 10 then 1 else 1 + DecimalWidth(n / 10)
  }

  predicate IsDigit(c: char) {
    '0' <= c <= '9'
  }

  predicate IsDecimal(text: string) {
    text != "" && forall k :: 0 <= k < |text| ==> IsDigit(text[k])
  }

  function Digit(d: nat): (c: char)
    requires d < 10
    ensures IsDigit(c) && DigitValue(c) == d
  {
    ('0' as int + d) as char
  }

  function Dec(n: nat): (text: string)
    ensures IsDecimal(text)
    ensures |text| == DecimalWidth(n)
  {
    if n < 10 then [Digit(n)] else Dec(n / 10) + [Digit(n % 10)]
  }

  function DigitValue(c: char): (d: nat)
    requires IsDigit(c)
    ensures d < 10
  {
    c as int - '0' as int
  }

  function Value(text: string): nat
    requires forall k :: 0 <= k < |text| ==> IsDigit(text[k])
  {
    if text == "" then 0 else 10 * Value(text[..|text| - 1]) + DigitValue(text[|text| - 1])
  }

  lemma {:induction false} ValueOfDec(n: nat)
    ensures Value(Dec(n)) == n
  {
    if n >= 10 {
      ValueOfDec(n / 10);
      assert Dec(n)[..|Dec(n)| - 1] == Dec(n / 10);
    } else {
      assert Dec(n)[..0] == "";
    }
  }

  /** The digits stand for what they usually do, and each further one counts ten times as little. */
  lemma ValueMeans(text: string, c: char)
    requires (forall k :: 0 <= k < |text| ==> '0' <= text[k] <= '9') && '0' <= c <= '9'
    ensures Value("") == 0
    ensures (forall k :: 0 <= k < |text + [c]| ==> IsDigit((text + [c])[k]))
            && Value(text + [c]) == 10 * Value(text) + (c as int - '0' as int)
  {
    assert (text + [c])[..|text|] == text;
  }

  /** Decimal text is what its value prints as exactly when it has no needless leading zero. */
  predicate NoLeadingZero(text: string) {
    |text| == 1 || (text != "" && text[0] != '0')
  }

  lemma {:induction false} DecOfValue(text: string)
    requires IsDecimal(text)
    ensures Dec(Value(text)) == text <==> NoLeadingZero(text)
    ensures NoLeadingZero(text) && |text| > 1 ==> Value(text) >= 10
    ensures NoLeadingZero(Dec(Value(text)))
  {
    CanonicalDec(Value(text));
    if NoLeadingZero(text) {
      PrintedBack(text);
    }
  }

  lemma {:induction false} CanonicalDec(n: nat)
    ensures NoLeadingZero(Dec(n))
    ensures n > 0 ==> Dec(n)[0] != '0'
  {
    if n >= 10 {
      CanonicalDec(n / 10);
    }
  }

  lemma {:induction false} PrintedBack(text: string)
    requires IsDecimal(text) && NoLeadingZero(text)
    ensures Dec(Value(text)) == text
    ensures text[0] != '0' ==> Value(text) > 0
    ensures |text| > 1 ==> Value(text) >= 10
  {
    var front, last := text[..|text| - 1], text[|text| - 1];
    assert text == front + [last];
    if front == "" {
      assert Value(front) == 0;
    } else {
      assert front[0] == text[0];
      PrintedBack(front);
    }
  }

  lemma {:induction false} WidthGrows(m: nat, n: nat)
    requires m <= n
    ensures DecimalWidth(m) <= DecimalWidth(n)
  {
    if m >= 10 {
      WidthGrows(m / 10, n / 10);
    }
  }
}
