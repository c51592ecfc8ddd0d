/** The slice of PHP that the two entity classes stand on: values as PHP hands
    them to a setter, their conversion to text, the integer filter
    (FILTER_VALIDATE_INT), the truthiness test empty() on strings, and the
    exception kinds the classes throw and catch. */
module Php {

  /** PHP strings are byte strings; strlen counts bytes. */
  type byte = x: int | 0 <= x < 256
  type Bytes = seq<byte>

  datatype Option<T> = None | Some(value: T)

  /** The exception classes that occur in the model. All but UndefinedMethod are
      subclasses of Exception; UndefinedMethod is the Error that PHP throws when a
      method the class does not define is called, and no `catch (Exception ...)`
      clause catches it. */
  datatype ErrorKind =
    | InvalidArgument   // InvalidArgumentException
    | Range             // RangeException
    | Pdo               // PDOException
    | Generic           // Exception
    | UndefinedMethod   // Error

  predicate IsException(k: ErrorKind)
  {
    !k.UndefinedMethod?
  }

  /** An exception: its class and its message (the `$previous` chain is dropped). */
  datatype Error = Error(kind: ErrorKind, message: string)

  datatype Result<T> = Ok(value: T) | Err(error: Error)

  /** What a void method that may throw does: return normally, or throw. */
  datatype Outcome = Pass | Fail(error: Error)

  function OutcomeOf<T>(r: Result<T>): Outcome
  {
    if r.Ok? then Pass else Fail(r.error)
  }

  /** The scalar values a setter can be handed. */
  datatype PhpValue = Null | Bool(b: bool) | Int(i: int) | Str(s: Bytes)

  /** filter_var(text, FILTER_SANITIZE_STRING): a library routine whose exact
      behaviour is not modelled; every property below holds for any sanitiser. */
  type Sanitizer = Bytes -> Bytes

  /** PHP_INT_MAX and PHP_INT_MIN on a 64-bit build. */
  const IntMax: int := 0x7fff_ffff_ffff_ffff
  const IntMin: int := -0x8000_0000_0000_0000

  const Plus: byte := 43
  const Minus: byte := 45
  const Zero: byte := 48
  const Nine: byte := 57

  predicate IsDigit(c: byte)
  {
    Zero <= c <= Nine
  }

  predicate AllDigits(s: Bytes)
  {
    forall i :: 0 <= i < |s| ==> IsDigit(s[i])
  }

  /** empty() on a string: true exactly for "" and "0". */
  predicate IsEmptyText(s: Bytes)
    ensures IsEmptyText(s) <==> s == ToText(Bool(false)) || s == ToText(Int(0))
  {
    s == [] || s == [Zero]
  }

  /** The decimal digits of n, without leading zeros. */
  function Digits(n: nat): (r: Bytes)
    ensures |r| > 0 && AllDigits(r)
    ensures r[0] == Zero <==> n == 0
  {
    if n < 10 then [Zero + n] else Digits(n / 10) + [Zero + n % 10]
  }

  /** The number a string of decimal digits denotes. */
  function DigitsValue(s: Bytes): nat
    requires AllDigits(s)
  {
    if s == [] then 0 else DigitsValue(s[..|s| - 1]) * 10 + (s[|s| - 1] - Zero)
  }

  /** How PHP writes an integer as a string. */
  function Decimal(i: int): Bytes
  {
    if i < 0 then [Minus] + Digits(-i) else Digits(i)
  }

  /** PHP's conversion of a scalar to a string: null and false become "",
      true becomes "1", an integer its decimal form. */
  function ToText(v: PhpValue): Bytes
  {
    match v
    case Null => []
    case Bool(b) => if b then Digits(1) else []
    case Int(i) => Decimal(i)
    case Str(s) => s
  }

  /** The white space the integer filter strips from both ends. */
  predicate IsBlank(c: byte)
  {
    c == 32 || c == 9 || c == 10 || c == 11 || c == 13
  }

  function TrimStart(s: Bytes): Bytes
  {
    if |s| > 0 && IsBlank(s[0]) then TrimStart(s[1..]) else s
  }

  function TrimEnd(s: Bytes): Bytes
  {
    if |s| > 0 && IsBlank(s[|s| - 1]) then TrimEnd(s[..|s| - 1]) else s
  }

  function Trim(s: Bytes): Bytes
  {
    TrimEnd(TrimStart(s))
  }

  /** FILTER_VALIDATE_INT on a text (no flags): after trimming, "0", "+0" and
      "-0" give 0; otherwise an optional sign, a digit 1-9 and more digits,
      denoting a value within the 64-bit range. Anything else fails (None,
      which PHP reports as false). */
  function ParseInt(s: Bytes): (r: Option<int>)
    ensures r.Some? ==> IntMin <= r.value <= IntMax
  {
    var t := Trim(s);
    if t == [] then None
    else if t[0] == Zero then (if |t| == 1 then Some(0) else None)
    else
      var body := if t[0] == Minus || t[0] == Plus then t[1..] else t;
      if body == [Zero] then Some(0)
      else if body != [] && body[0] != Zero && AllDigits(body) then
        var v: int := if t[0] == Minus then -(DigitsValue(body) as int) else DigitsValue(body);
        if IntMin <= v <= IntMax then Some(v) else None
      else None
  }

  /** filter_var(v, FILTER_VALIDATE_INT): the filter works on the text form. */
  function ValidateInt(v: PhpValue): (r: Option<int>)
    ensures v.Int? && IntMin <= v.i <= IntMax ==> r == Some(v.i)
    ensures v.Int? && !(IntMin <= v.i <= IntMax) ==> r.None?
    ensures v.Null? || v == Bool(false) ==> r.None?
    ensures v == Bool(true) ==> r == Some(1)
    ensures r.Some? ==> IntMin <= r.value <= IntMax
  {
    if v.Int? then DecimalParses(v.i); ParseInt(ToText(v))
    else if v == Bool(true) then DigitsRoundTrip(1); assert Trim(ToText(v)) == [Zero + 1]; ParseInt(ToText(v))
    else ParseInt(ToText(v))
  }

  /** The setters' idiom `$x = filter_var($x, FILTER_VALIDATE_INT); if (empty($x)) throw`:
      the value passes exactly when it is an integer other than 0. */
  function ValidateNonEmptyInt(v: PhpValue): (r: Option<int>)
    ensures r.Some? ==> r.value != 0 && ValidateInt(v) == r
    ensures r.None? ==> ValidateInt(v) in {None, Some(0)}
  {
    match ValidateInt(v)
    case Some(i) => if i != 0 then Some(i) else None
    case None => None
  }

  /** The id mutators' validation: null is accepted and means "no id yet";
      any other value is accepted exactly when it is a non-zero integer, and
      otherwise rejected with InvalidArgumentException(invalid). */
  function CheckOptionalId(v: PhpValue, invalid: string): (r: Result<Option<int>>)
    ensures v.Null? ==> r == Ok(None)
    ensures !v.Null? ==> (r.Ok? <==> ValidateNonEmptyInt(v).Some?)
    ensures !v.Null? && r.Ok? ==> r.value == Some(ValidateInt(v).value) && r.value.value != 0
    ensures r.Err? ==> r.error == Error(InvalidArgument, invalid)
  {
    if v.Null? then Ok(None)
    else match ValidateNonEmptyInt(v)
      case Some(i) => Ok(Some(i))
      case None => Err(Error(InvalidArgument, invalid))
  }

  lemma {:induction false} DigitsRoundTrip(n: nat)
    ensures DigitsValue(Digits(n)) == n
  {
    if n >= 10 {
      DigitsRoundTrip(n / 10);
      var d := Digits(n);
      assert d[..|d| - 1] == Digits(n / 10);
    }
  }

  lemma {:induction false} DigitsValuePositive(s: Bytes)
    requires AllDigits(s) && |s| > 0 && s[0] != Zero
    ensures DigitsValue(s) >= 1
    ensures |s| > 1 ==> DigitsValue(s) >= 10
  {
    if |s| > 1 {
      DigitsValuePositive(s[..|s| - 1]);
    }
  }

  /** A digit string without a leading zero is the decimal form of its value. */
  lemma {:induction false} ValueDigitsRoundTrip(s: Bytes)
    requires AllDigits(s) && |s| > 0 && s[0] != Zero
    ensures Digits(DigitsValue(s)) == s
  {
    if |s| > 1 {
      var init := s[..|s| - 1];
      ValueDigitsRoundTrip(init);
      DigitsValuePositive(init);
      var v := DigitsValue(s);
      assert v / 10 == DigitsValue(init) && v % 10 == s[|s| - 1] - Zero;
      assert s == init + [s[|s| - 1]];
    }
  }

  /** The decimal text of an integer parses back to it when it is within the
      64-bit range, and is rejected otherwise. */
  lemma DecimalParses(i: int)
    ensures ParseInt(Decimal(i)) == if IntMin <= i <= IntMax then Some(i) else None
  {
    var d := Decimal(i);
    var n := if i < 0 then -i else i;
    DigitsRoundTrip(n);
    assert Trim(d) == d;
  }

  /** The integer filter accepts every PHP integer, given as a value or as its
      decimal text, and returns it unchanged. */
  lemma ValidateIntRoundTrip(i: int)
    ensures IntMin <= i <= IntMax ==> ValidateInt(Int(i)) == Some(i) && ValidateInt(Str(Decimal(i))) == Some(i)
  {
    DecimalParses(i);
  }

  /** Conversely, a text the filter accepts as a non-zero integer is, once trimmed,
      that integer's decimal form, possibly with a leading '+'. */
  lemma AcceptedTextIsDecimal(s: Bytes)
    requires ParseInt(s).Some? && ParseInt(s).value != 0
    ensures var v := ParseInt(s).value;
      Trim(s) == Decimal(v) || (v > 0 && Trim(s) == [Plus] + Decimal(v))
  {
    var t := Trim(s);
    var body := if t[0] == Minus || t[0] == Plus then t[1..] else t;
    ValueDigitsRoundTrip(body);
    assert t == [t[0]] + body || t == body;
  }

  /** Every non-zero PHP integer passes the setters' integer check, as a value or as text. */
  lemma NonZeroIntegersAccepted(i: int)
    requires IntMin <= i <= IntMax && i != 0
    ensures ValidateNonEmptyInt(Int(i)) == Some(i)
    ensures ValidateNonEmptyInt(Str(Decimal(i))) == Some(i)
  {
    ValidateIntRoundTrip(i);
  }
}
