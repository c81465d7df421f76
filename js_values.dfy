/** The small slice of JavaScript's value semantics that the macros editor's
    row manipulation depends on: which values are falsy, loose equality `==`
    as lodash's `find` predicate uses it, `Number.prototype.toString` on
    integers, ASCII `toLowerCase`, and the exception a property read on
    `undefined` throws. A row (a plain JavaScript object) is a finite map
    from property name to value; a property that is absent is not in the
    map, and reading it yields `undefined`. */
module JsValues {

  datatype Option<T> = None | Some(value: T)

  /** The values a macro row's properties take. JavaScript numbers are
      modelled by their integer values only. */
  datatype Value = Null | Undefined | Int(n: int) | Str(s: string)

  type Row = map<string, Value>

  /** The only error the modelled code can raise. */
  datatype JsError = TypeError

  /** How evaluating an expression ends: with a value or by throwing. */
  datatype Completion<T> = Normal(value: T) | Throw(error: JsError)

  /** `m.k`: the property's value, or `undefined` when the key is absent. */
  function Get(m: Row, k: string): (v: Value)
    ensures k in m ==> v == m[k]
    ensures k !in m ==> v == Undefined
  {
    if k in m then m[k] else Undefined
  }

  /** JavaScript truthiness: `null`, `undefined`, `0` and `''` are falsy. */
  predicate Truthy(v: Value)
  {
    match v
    case Null => false
    case Undefined => false
    case Int(n) => n != 0
    case Str(s) => s != ""
  }

  // ---------------------------------------------------------------------
  // Number <-> string

  function DigitChar(d: nat): (c: char)
    requires d < 10
    ensures '0' <= c <= '9' && c as int - '0' as int == d
  {
    ('0' as int + d) as char
  }

  predicate IsDigit(c: char)
  {
    '0' <= c <= '9'
  }

  predicate AllDigits(s: string)
  {
    forall i :: 0 <= i < |s| ==> IsDigit(s[i])
  }

  /** Decimal digits of `n`, most significant first, without leading zeros. */
  function NatToString(n: nat): (s: string)
    decreases n
  {
    if n < 10 then [DigitChar(n)] else NatToString(n / 10) + [DigitChar(n % 10)]
  }

  /** `Number.prototype.toString()` for an integer value. */
  function IntToString(i: int): string
  {
    if i < 0 then "-" + NatToString(-i) else NatToString(i)
  }

  /** The value of a string of decimal digits. */
  function DigitsValue(s: string): nat
    requires AllDigits(s)
  {
    if s == [] then 0
    else DigitsValue(s[..|s| - 1]) * 10 + (s[|s| - 1] as int - '0' as int)
  }

  /** The string-to-number conversion that `==` applies when it compares a
      string with a number, for the integer strings this model covers: the
      empty string is 0, an optional sign followed by decimal digits is that
      integer, and anything else is NaN (`None`), which equals no number. */
  function ToNumber(s: string): Option<int>
  {
    if s == "" then Some(0)
    else if (s[0] == '-' || s[0] == '+') && |s| > 1 && AllDigits(s[1..]) then
      Some(if s[0] == '-' then 0 - DigitsValue(s[1..]) as int else DigitsValue(s[1..]))
    else if AllDigits(s) then Some(DigitsValue(s))
    else None
  }

  lemma {:induction false} NatToStringDigits(n: nat)
    ensures |NatToString(n)| > 0 && AllDigits(NatToString(n))
    ensures DigitsValue(NatToString(n)) == n
    decreases n
  {
    if n >= 10 {
      NatToStringDigits(n / 10);
      var s := NatToString(n);
      assert s[..|s| - 1] == NatToString(n / 10);
    }
  }

  /** Rendering an integer and reading it back gives the integer: so `5`
      and `'5'` are loosely equal, and `toString` never merges two keys
      that were different numbers. */
  lemma IntToStringRoundTrip(i: int)
    ensures ToNumber(IntToString(i)) == Some(i)
  {
    if i < 0 {
      NatToStringDigits(-i);
      assert IntToString(i)[1..] == NatToString(-i);
    } else {
      NatToStringDigits(i);
    }
  }

  lemma IntToStringInjective(i: int, j: int)
    requires IntToString(i) == IntToString(j)
    ensures i == j
  {
    IntToStringRoundTrip(i);
    IntToStringRoundTrip(j);
  }

  /** `v.toString()` (only reached for truthy values in the modelled code). */
  function ToString(v: Value): string
  {
    match v
    case Null => "null"
    case Undefined => "undefined"
    case Int(n) => IntToString(n)
    case Str(s) => s
  }

  /** JavaScript's abstract loose equality `x == y`. */
  predicate LooseEquals(x: Value, y: Value)
  {
    match (x, y)
    case (Null, Null) => true
    case (Null, Undefined) => true
    case (Undefined, Null) => true
    case (Undefined, Undefined) => true
    case (Int(a), Int(b)) => a == b
    case (Str(a), Str(b)) => a == b
    case (Int(a), Str(b)) => ToNumber(b) == Some(a)
    case (Str(a), Int(b)) => ToNumber(a) == Some(b)
    case _ => false
  }

  lemma LooseEqualsSymmetric(x: Value, y: Value)
    ensures LooseEquals(x, y) == LooseEquals(y, x)
  {
  }

  // ---------------------------------------------------------------------
  // Case folding

  function LowerChar(c: char): (r: char)
    ensures !('A' <= r <= 'Z')
    ensures 'a' <= r <= 'z' ==> r == c || r as int == c as int + 32
  {
    if 'A' <= c <= 'Z' then (c as int + 32) as char else c
  }

  /** `s.toLowerCase()` on the ASCII letters. */
  function Lower(s: string): (r: string)
    ensures |r| == |s|
    ensures forall i :: 0 <= i < |s| ==> r[i] == LowerChar(s[i])
  {
    seq(|s|, i requires 0 <= i < |s| => LowerChar(s[i]))
  }

  /** Two strings that differ only in the case of ASCII letters lower-case
      to the same string. */
  lemma LowerIgnoresCase(s: string, t: string)
    requires |s| == |t|
    requires forall i :: 0 <= i < |s| ==>
      s[i] == t[i] || ('A' <= s[i] <= 'Z' && t[i] as int == s[i] as int + 32)
                   || ('A' <= t[i] <= 'Z' && s[i] as int == t[i] as int + 32)
    ensures Lower(s) == Lower(t)
  {
  }
}
