/**
 * The slice of PHP and Laravel semantics the controller relies on: the values a
 * request carries, the exceptions its code raises, how an id spelled in a request
 * is compared with an integer row id, what Laravel's `required` rule calls blank,
 * and the arrays-are-JSON-encoded convention of lines 258-259 and 205.
 */
module Php {
  import opened Wrappers

  /** A request value: null, an integer, a string or an array (keys not modelled). */
  datatype Value = Null | Int(i: int) | Str(s: string) | Arr(items: seq<Value>)

  /**
   * The exceptions the controller's code raises. Laravel turns PHP warnings into
   * exceptions, so reading an undefined array key or converting an array to a
   * string raises as well.
   */
  datatype Exception =
    | UndefinedKey(key: string)               // warning "Undefined array key"
    | ArrayToString                           // warning "Array to string conversion"
    | ValidationFailed(fields: set<string>)   // ValidationException, naming every failing attribute
    | Forbidden                               // abort(403, 'Unauthorized action')
    | IllegalOffset                           // TypeError: an array used as an array key

  /** How an action ended: normally, or with an exception its catch block returned. */
  datatype Outcome = Done | Failed(error: Exception)

  /** The characters PHP's trim() strips by default. */
  predicate IsTrimmed(c: char) {
    c == ' ' || c == '\t' || c == '\n' || c == '\r' || c == '\0' || c == '\U{B}'
  }

  /** A string that Laravel's `required` rule treats as empty: trim() leaves nothing. */
  predicate Blank(s: string) {
    forall k :: 0 <= k < |s| ==> IsTrimmed(s[k])
  }

  /** `is_array($v) ? json_encode($v) : $v`, with json_encode given as a parameter. */
  function JsonEncoded(v: Value, encode: Value -> string): (r: Value)
    ensures v.Arr? ==> r == Str(encode(v))
    ensures !v.Arr? ==> r == v
    ensures !r.Arr?
  {
    if v.Arr? then Str(encode(v)) else v
  }

  // ---------------------------------------------------------------------------
  // Integer spelling. PHP converts an integer to a string in canonical decimal,
  // and turns a string array key that is a canonical decimal into an integer key.

  predicate IsDigit(c: char) { '0' <= c <= '9' }

  predicate AllDigits(s: string) { forall k :: 0 <= k < |s| ==> IsDigit(s[k]) }

  function DigitChar(d: nat): (c: char)
    requires d < 10
    ensures IsDigit(c) && c as int - '0' as int == d
  {
    (d + '0' as int) as char
  }

  /** The decimal digits of a natural number, most significant first. */
  function NatDigits(n: nat): string
    decreases n
  {
    if n < 10 then [DigitChar(n)] else NatDigits(n / 10) + [DigitChar(n % 10)]
  }

  /** `(string) $n` for an integer. */
  function Decimal(n: int): string {
    if n < 0 then "-" + NatDigits(-n) else NatDigits(n)
  }

  /** The number a string of digits denotes. */
  function DigitsValue(s: string): nat
    requires AllDigits(s)
    decreases |s|
  {
    if s == [] then 0 else DigitsValue(s[..|s| - 1]) * 10 + (s[|s| - 1] as int - '0' as int)
  }

  /** Digits with no superfluous leading zero. */
  predicate IsCanonicalNat(s: string) {
    |s| > 0 && AllDigits(s) && (s[0] == '0' ==> |s| == 1)
  }

  /** The integer a string spells in canonical decimal, if it spells one ("-0" does not). */
  function ParseCanonical(s: string): Option<int> {
    if IsCanonicalNat(s) then Some(DigitsValue(s))
    else if |s| > 1 && s[0] == '-' && s[1] != '0' && IsCanonicalNat(s[1..]) then Some(0 - DigitsValue(s[1..]) as int)
    else None
  }

  /**
   * The integer row id an id value from the request stands for: an integer, or a
   * string spelling an integer in canonical decimal. Null and other strings name
   * no row; an array never reaches a comparison (converting it raises first).
   */
  function IdKey(v: Value): Option<int> {
    match v
    case Int(n) => Some(n)
    case Str(s) => ParseCanonical(s)
    case _ => None
  }

  /** `(string) $v`, which `array_diff` compares (lines 117 and 119). */
  function StringForm(v: Value): string
    requires !v.Arr?
  {
    match v
    case Null => ""
    case Int(n) => Decimal(n)
    case Str(s) => s
  }

  lemma {:induction false} NatDigitsCanonical(n: nat)
    ensures IsCanonicalNat(NatDigits(n)) && DigitsValue(NatDigits(n)) == n
    ensures n > 0 ==> NatDigits(n)[0] != '0'
    decreases n
  {
    if n >= 10 {
      NatDigitsCanonical(n / 10);
      var s := NatDigits(n);
      assert s[..|s| - 1] == NatDigits(n / 10);
    }
  }

  lemma {:induction false} CanonicalPositive(s: string)
    requires AllDigits(s) && |s| > 0 && s[0] != '0'
    ensures DigitsValue(s) >= 1
    decreases |s|
  {
    if |s| > 1 {
      CanonicalPositive(s[..|s| - 1]);
    }
  }

  lemma {:induction false} NatDigitsOfValue(s: string)
    requires IsCanonicalNat(s)
    ensures NatDigits(DigitsValue(s)) == s
    decreases |s|
  {
    if |s| > 1 {
      var init := s[..|s| - 1];
      NatDigitsOfValue(init);
      CanonicalPositive(init);
      var d := s[|s| - 1] as int - '0' as int;
      var n := DigitsValue(s);
      assert n == DigitsValue(init) * 10 + d;
      assert n / 10 == DigitsValue(init) && n % 10 == d;
      assert DigitChar(d) == s[|s| - 1];
      assert s == init + [s[|s| - 1]];
    } else {
      assert s[..|s| - 1] == [];
      assert DigitsValue(s) == s[0] as int - '0' as int;
      assert DigitChar(DigitsValue(s)) == s[0];
    }
  }

  /** Reading back PHP's spelling of an integer gives the integer. */
  lemma ParseDecimal(n: int)
    ensures ParseCanonical(Decimal(n)) == Some(n)
  {
    if n < 0 {
      NatDigitsCanonical(-n);
      var s := Decimal(n);
      assert s[1..] == NatDigits(-n);
    } else {
      NatDigitsCanonical(n);
    }
  }

  /** A string that spells an integer is PHP's spelling of that integer. */
  lemma DecimalOfParse(s: string)
    requires ParseCanonical(s).Some?
    ensures Decimal(ParseCanonical(s).value) == s
  {
    if IsCanonicalNat(s) {
      NatDigitsOfValue(s);
      if DigitsValue(s) < 0 { assert false; }
    } else {
      NatDigitsOfValue(s[1..]);
      CanonicalPositive(s[1..]);
      assert s == "-" + s[1..];
    }
  }

  /** A PHP array key: an integer, or a string. */
  datatype Key = IntKey(n: int) | StrKey(s: string)

  /**
   * The key a value is stored under when used as an array key, as keyBy('id') does
   * (line 130): an integer stays, a string spelling an integer in canonical decimal
   * becomes that integer, any other string stays a string, and null becomes "".
   */
  function ArrayKey(v: Value): Key
    requires !v.Arr?
  {
    match v
    case Null => StrKey("")
    case Int(n) => IntKey(n)
    case Str(s) => if ParseCanonical(s).Some? then IntKey(ParseCanonical(s).value) else StrKey(s)
  }

  /**
   * `isset($questionMap[$question->id])` (line 132) finds the entry whose id is
   * stored under the integer key of the row id: exactly the entries IdKey says name
   * the row, which are the ones whose id has the row id's decimal spelling.
   */
  lemma ArrayKeyOfId(v: Value, id: int)
    requires !v.Arr?
    ensures ArrayKey(v) == IntKey(id) <==> IdKey(v) == Some(id)
    ensures ArrayKey(v) == IntKey(id) <==> StringForm(v) == Decimal(id)
  {
    IdKeyIsStringComparison(v, id);
  }

  /**
   * Comparing string forms, as `array_diff` does, and comparing integer keys, as
   * `keyBy('id')` and `isset($questionMap[$id])` do, agree on every id value that
   * is not an array: both say the value names row id exactly when IdKey says so.
   */
  lemma IdKeyIsStringComparison(v: Value, id: int)
    requires !v.Arr?
    ensures IdKey(v) == Some(id) <==> StringForm(v) == Decimal(id)
  {
    ParseDecimal(id);
    match v
    case Null =>
      if id < 0 { NatDigitsCanonical(-id); } else { NatDigitsCanonical(id); }
    case Int(n) =>
      ParseDecimal(n);
    case Str(s) =>
      if ParseCanonical(s).Some? { DecimalOfParse(s); }
  }
}
