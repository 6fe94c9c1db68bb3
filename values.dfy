/** The values that fill the feature columns and the class column of a dataset. */
module Values {

  /** Feature values and class labels: the programs use strings, integers and booleans. */
  datatype Value = Str(s: string) | Int(i: int) | Bool(b: bool)

  predicate IsDigit(c: char)
  {
    '0' <= c <= '9'
  }

  /** The decimal digit for `d`. */
  function DigitChar(d: nat): (c: char)
    requires d < 10
    ensures IsDigit(c) && c as int - '0' as int == d
  {
    ('0' as int + d) as char
  }

  /** The number a string of decimal digits spells, most significant digit first. */
  function DigitsValue(s: string): nat
    requires forall k :: 0 <= k < |s| ==> IsDigit(s[k])
  {
    if s == [] then 0
    else
      var last := s[|s| - 1];
      assert IsDigit(last);
      DigitsValue(s[..|s| - 1]) * 10 + (last as int - '0' as int)
  }

  /** `str(n)` for a natural number: decimal digits, with no leading zero except for 0 itself. */
  function NatText(n: nat): (s: string)
    ensures |s| > 0 && forall k :: 0 <= k < |s| ==> IsDigit(s[k])
    ensures s[0] == '0' ==> n == 0
    decreases n
  {
    if n < 10 then [DigitChar(n)] else NatText(n / 10) + [DigitChar(n % 10)]
  }

  /** Reading back the digits of `NatText(n)` gives `n`. */
  lemma {:induction false} NatTextValue(n: nat)
    ensures DigitsValue(NatText(n)) == n
    decreases n
  {
    if n >= 10 {
      var s := NatText(n);
      assert s[..|s| - 1] == NatText(n / 10);
      NatTextValue(n / 10);
    }
  }

  /**
    Python's `str(v)`: a string is itself, a boolean is `True` or `False`, and an
    integer is its decimal digits with a leading `-` exactly when it is negative.
   */
  function Show(v: Value): (r: string)
    ensures v.Str? ==> r == v.s
    ensures v.Bool? ==> (r == "True" <==> v.b) && (r == "False" <==> !v.b)
    ensures v.Int? ==> |r| > 0 && (r[0] == '-' <==> v.i < 0)
  {
    match v
    case Str(s) => s
    case Int(i) => if i < 0 then "-" + NatText(-i) else NatText(i)
    case Bool(b) => if b then "True" else "False"
  }

  /** The text of an integer reads back as that integer. */
  lemma ShowIntValue(i: int)
    ensures var r := Show(Int(i));
      if i < 0 then r[0] == '-' && (forall k :: 1 <= k < |r| ==> IsDigit(r[k])) && DigitsValue(r[1..]) == -i
      else (forall k :: 0 <= k < |r| ==> IsDigit(r[k])) && DigitsValue(r) == i
  {
    if i < 0 {
      NatTextValue(-i);
      assert Show(Int(i))[1..] == NatText(-i);
    } else {
      NatTextValue(i);
    }
  }
}
