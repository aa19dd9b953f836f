/** The JSON values the datasets are made of, as json.load hands them to
    the program, and Python's str() of such a value. */
module Json {

  /** A JSON value. Numbers are integers in this model. */
  datatype Value =
    | Null
    | Bool(b: bool)
    | Int(i: int)
    | Str(s: string)
    | Arr(items: seq<Value>)
    | Obj(fields: map<string, Value>)

  /** An open-ended record: a JSON object with string keys. */
  type Object = map<string, Value>

  predicate IsDigit(c: char) {
    '0' <= c <= '9'
  }

  function DigitChar(d: int): (c: char)
    requires 0 <= d < 10
    ensures IsDigit(c) && c as int - '0' as int == d
  {
    ('0' as int + d) as char
  }

  /** Decimal digits of a natural number, without leading zeros. */
  function NatText(n: nat): (s: string)
    ensures |s| >= 1
    ensures forall i :: 0 <= i < |s| ==> IsDigit(s[i])
    ensures n > 0 ==> s[0] != '0'
    decreases n
  {
    if n < 10 then [DigitChar(n)] else NatText(n / 10) + [DigitChar(n % 10)]
  }

  function DigitOf(c: char): (d: nat)
    requires IsDigit(c)
    ensures d < 10
  {
    c as int - '0' as int
  }

  /** The value of a string of decimal digits. */
  function DigitsValue(s: string): nat
    requires forall i :: 0 <= i < |s| ==> IsDigit(s[i])
  {
    if s == [] then 0
    else 10 * DigitsValue(s[..|s| - 1]) + DigitOf(s[|s| - 1])
  }

  /** Python's str() of an int: an optional minus sign, then the digits. */
  function IntText(i: int): string {
    if i < 0 then "-" + NatText(-i) else NatText(i)
  }

  /** Python's str() of a JSON value as json.load returns it: a string is
      itself, and no other value's text contains a '+'. */
  function Text(v: Value): (r: string)
    ensures v.Str? ==> r == v.s
    ensures !v.Str? ==> |r| >= 1 && '+' !in r
  {
    match v
    case Null => "None"
    case Bool(b) => if b then "True" else "False"
    case Int(i) => IntText(i)
    case Str(s) => s
    case Arr(_) => "[...]"
    case Obj(_) => "{...}"
  }

  lemma {:induction false} DigitsOfNatText(n: nat)
    ensures DigitsValue(NatText(n)) == n
    decreases n
  {
    if n >= 10 {
      var s := NatText(n);
      assert s[..|s| - 1] == NatText(n / 10);
      DigitsOfNatText(n / 10);
    }
  }

  /** Distinct naturals print differently. */
  lemma NatTextInjective(m: nat, n: nat)
    requires NatText(m) == NatText(n)
    ensures m == n
  {
    DigitsOfNatText(m);
    DigitsOfNatText(n);
  }

  /** Distinct integers print differently, so an integer field (a rank)
      is recovered from its text. */
  lemma IntTextInjective(i: int, j: int)
    requires IntText(i) == IntText(j)
    ensures i == j
  {
    var s := IntText(i);
    if i < 0 {
      assert s[0] == '-' && s[1..] == NatText(-i);
    } else {
      assert s == NatText(i) && IsDigit(s[0]);
    }
    if j < 0 {
      assert s[0] == '-' && s[1..] == NatText(-j);
    } else {
      assert s == NatText(j) && IsDigit(s[0]);
    }
    if i < 0 && j < 0 {
      NatTextInjective(-i, -j);
    } else if i >= 0 && j >= 0 {
      NatTextInjective(i, j);
    }
  }
}
