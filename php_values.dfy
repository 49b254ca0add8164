/**
 * PHP data as the observer handles it: scalar cells, arrays with string keys,
 * the `(integer)` cast, the way a value becomes an array key, `isset` and
 * `array_merge`.
 */
module PhpValues {

  datatype Option<T> = None | Some(value: T)

  /**
   * A scalar cell. Rows fetched from the database hold strings; rows built
   * by the import hold integers; a NULL column, or a missing key, is Null.
   */
  datatype Value = Null | Int(i: int) | Str(s: string)

  /** A PHP array with string keys: a url_rewrite row, a category, decoded metadata. */
  type Row = map<string, Value>

  /** `$row[$key]`, which reads as null when the key is missing. */
  function Field(row: Row, key: string): Value
  {
    if key in row then row[key] else Null
  }

  /** `isset($row[$key])`: the key is there and its value is not null. */
  predicate IsSet(row: Row, key: string)
  {
    key in row && row[key] != Null
  }

  // ---------------------------------------------------------------------
  // Decimal digits

  predicate IsDigit(c: char)
  {
    '0' <= c <= '9'
  }

  predicate AllDigits(d: string)
  {
    forall i | 0 <= i < |d| :: IsDigit(d[i])
  }

  function DigitValue(c: char): (n: nat)
    requires IsDigit(c)
    ensures n < 10
  {
    (c as int) - ('0' as int)
  }

  function DigitChar(n: nat): (c: char)
    requires n < 10
    ensures IsDigit(c) && DigitValue(c) == n
  {
    (('0' as int) + n) as char
  }

  /**
   * The number the leading decimal digits of `s` denote, read after the
   * digits already accumulated in `acc`.
   */
  function LeadingDigitsValue(s: string, acc: nat): nat
  {
    if s == [] || !IsDigit(s[0]) then acc else LeadingDigitsValue(s[1..], acc * 10 + DigitValue(s[0]))
  }

  /** The decimal notation of `n`, without leading zeros. */
  function NatToString(n: nat): string
  {
    if n < 10 then [DigitChar(n)] else NatToString(n / 10) + [DigitChar(n % 10)]
  }

  /** `(string) $n` for an integer: PHP's canonical decimal notation. */
  function IntToString(n: int): string
  {
    if n < 0 then "-" + NatToString(-n) else NatToString(n)
  }

  // ---------------------------------------------------------------------
  // Conversions

  /**
   * `(integer) $v`: null is 0, an integer is itself, a string is read as an
   * optional sign followed by its leading decimal digits (0 when there are none).
   */
  function IntCast(v: Value): int
  {
    match v
    case Null => 0
    case Int(i) => i
    case Str(s) =>
      if |s| > 0 && s[0] == '-' then -(LeadingDigitsValue(s[1..], 0) as int)
      else if |s| > 0 && s[0] == '+' then LeadingDigitsValue(s[1..], 0)
      else LeadingDigitsValue(s, 0)
  }

  /**
   * `(string) $v`. It is also the identity of `$v` as a key of a PHP array:
   * an integer key and the canonical decimal string of that integer are the
   * same key, and null is the key "".
   */
  function ToStr(v: Value): string
  {
    match v
    case Null => ""
    case Int(i) => IntToString(i)
    case Str(s) => s
  }

  /**
   * The integer key `$v` becomes when it indexes a PHP array: an integer is
   * itself, a string is an integer key only when it is the canonical decimal
   * notation of one; anything else (null, any other string) is a string key,
   * given as None.
   */
  function ArrayKeyInt(v: Value): (k: Option<int>)
    ensures k.Some? ==> v != Null && IntCast(v) == k.value
    ensures v.Str? && k.Some? ==> v.s == IntToString(k.value)
  {
    match v
    case Null => None
    case Int(i) => Some(i)
    case Str(s) => if IntToString(IntCast(v)) == s then Some(IntCast(v)) else None
  }

  /**
   * `array_merge($a, $b)` on arrays with string keys (the parent observer's
   * mergeEntity): every key of either array, with `b`'s value where both
   * have the key.
   */
  function ArrayMerge(a: Row, b: Row): (r: Row)
    ensures r.Keys == a.Keys + b.Keys
    ensures forall k | k in b :: r[k] == b[k]
    ensures forall k | k in a && k !in b :: r[k] == a[k]
  {
    a + b
  }

  // ---------------------------------------------------------------------
  // Lemmas

  lemma {:induction false} NatToStringDigits(n: nat)
    ensures |NatToString(n)| > 0 && AllDigits(NatToString(n))
    ensures NatToString(n)[0] != '-' && NatToString(n)[0] != '+'
  {
    if n >= 10 {
      NatToStringDigits(n / 10);
    }
  }

  /** Reading one more trailing digit multiplies what was read by ten and adds it. */
  lemma {:induction false} LeadingDigitsValueSnoc(d: string, c: char, acc: nat)
    requires AllDigits(d) && IsDigit(c)
    ensures LeadingDigitsValue(d + [c], acc) == LeadingDigitsValue(d, acc) * 10 + DigitValue(c)
  {
    if d != [] {
      assert (d + [c])[1..] == d[1..] + [c];
      LeadingDigitsValueSnoc(d[1..], c, acc * 10 + DigitValue(d[0]));
    }
  }

  lemma {:induction false} LeadingDigitsValueOfNatToString(n: nat)
    ensures LeadingDigitsValue(NatToString(n), 0) == n
  {
    if n >= 10 {
      NatToStringDigits(n / 10);
      LeadingDigitsValueSnoc(NatToString(n / 10), DigitChar(n % 10), 0);
      LeadingDigitsValueOfNatToString(n / 10);
    }
  }

  /** Casting PHP's decimal notation of an integer back gives the integer. */
  lemma IntCastOfIntToString(n: int)
    ensures IntCast(Str(IntToString(n))) == n
  {
    if n < 0 {
      var s := IntToString(n);
      assert s[1..] == NatToString(-n);
      LeadingDigitsValueOfNatToString(-n);
    } else {
      NatToStringDigits(n);
      LeadingDigitsValueOfNatToString(n);
    }
  }

  /** Past the leading digits, reading stops: what follows them does not change the value. */
  lemma {:induction false} LeadingDigitsValueStops(d: string, rest: string, acc: nat)
    requires AllDigits(d) && (rest == [] || !IsDigit(rest[0]))
    ensures LeadingDigitsValue(d + rest, acc) == LeadingDigitsValue(d, acc)
  {
    if d == [] {
      assert d + rest == rest;
    } else {
      assert (d + rest)[1..] == d[1..] + rest;
      LeadingDigitsValueStops(d[1..], rest, acc * 10 + DigitValue(d[0]));
    }
  }

  /**
   * The cast reads an integer's decimal notation and ignores whatever
   * non-digit text follows it: "12abc" casts to 12, "-3 " to -3.
   */
  lemma IntCastReadsLeadingDigits(n: int, rest: string)
    requires rest == [] || !IsDigit(rest[0])
    ensures IntCast(Str(IntToString(n) + rest)) == n
  {
    var m: nat := if n < 0 then -n else n;
    NatToStringDigits(m);
    LeadingDigitsValueStops(NatToString(m), rest, 0);
    LeadingDigitsValueOfNatToString(m);
    if n < 0 {
      var s := IntToString(n) + rest;
      assert s[1..] == NatToString(m) + rest;
    }
  }

  /** A string that starts with neither a digit nor a sign casts to 0, as the empty string does. */
  lemma IntCastWithoutDigits(s: string)
    requires s == [] || (!IsDigit(s[0]) && s[0] != '-' && s[0] != '+')
    ensures IntCast(Str(s)) == 0
  {
  }

  /**
   * An integer and its decimal string are the same array key, so a store id
   * given either way finds the same integer-keyed entry.
   */
  lemma ArrayKeyIntOfDecimal(n: int)
    ensures ArrayKeyInt(Int(n)) == Some(n)
    ensures ArrayKeyInt(Str(IntToString(n))) == Some(n)
    ensures ToStr(Int(n)) == ToStr(Str(IntToString(n)))
  {
    IntCastOfIntToString(n);
  }
}
