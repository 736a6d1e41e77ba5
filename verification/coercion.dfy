/** `ReflectiveValueSetter.setFieldValue`: turn a configuration string into a value
    of the field's declared type and write it, or throw. Integers follow the
    grammar and ranges of `Integer.parseInt` / `Long.parseLong` (ASCII digits);
    floating-point parsing is an opaque parser handed in by the caller. */
module Coercion {
  import opened Wrappers
  import opened Strings

  /** The value types `setFieldValue` supports besides `String`. */
  datatype Kind = IntKind | LongKind | FloatKind | DoubleKind | BooleanKind

  /** A field's declared type: `String`, a primitive (`int`), its box (`Integer`), or
      any other class, named as `Class.toString()` would print it. `OtherType` never
      names `String` or one of the ten primitive and boxed types of `Kind`: those
      are always written with their own constructors. */
  datatype JavaType = StringType | Primitive(kind: Kind) | Boxed(kind: Kind) | OtherType(name: string)

  /** A `float` or `double` as its parser produced it. */
  datatype Floating = Finite(number: real) | NaN | PositiveInfinity | NegativeInfinity

  /** What a field holds. `NullRef` is an unset reference field. */
  datatype Value =
    | NullRef
    | Str(text: string)
    | IntValue(i: int)
    | LongValue(l: int)
    | FloatValue(f: Floating)
    | DoubleValue(d: Floating)
    | BoolValue(b: bool)

  /** The exceptions `setFieldValue` throws, none of them after a write: a text the
      parser rejects, an unsupported field type, a field the caller's access
      control forbids writing (`IllegalAccessException`), and a field that is not a
      field of the target object (`IllegalArgumentException` from `field.set`). */
  datatype SetError =
    | NumberFormat(input: string)
    | UnsupportedFieldType(typeName: string)
    | IllegalAccess(fieldName: string)
    | NotAFieldOf(fieldName: string)

  /** A field of the target object: its name and declared type. */
  datatype Field = Field(name: string, fieldType: JavaType)

  const IntMin: int := -0x8000_0000
  const IntMax: int := 0x7fff_ffff
  const LongMin: int := -0x8000_0000_0000_0000
  const LongMax: int := 0x7fff_ffff_ffff_ffff

  predicate IsDigit(c: char)
  {
    '0' <= c <= '9'
  }

  predicate AllDigits(s: string)
  {
    forall i :: 0 <= i < |s| ==> IsDigit(s[i])
  }

  /** The number a run of decimal digits denotes, read from the left. */
  function DigitsValue(ds: string): nat
    requires AllDigits(ds)
    decreases |ds|
  {
    if ds == [] then 0
    else 10 * DigitsValue(ds[..|ds| - 1]) + (ds[|ds| - 1] as int - '0' as int)
  }

  /** The text after an optional leading sign. */
  function Unsigned(s: string): string
  {
    if |s| > 0 && (s[0] == '-' || s[0] == '+') then s[1..] else s
  }

  /** The grammar `parseInt` and `parseLong` accept: an optional `+` or `-`, then
      one or more decimal digits, and nothing else. */
  predicate IsDecimalLiteral(s: string)
  {
    |Unsigned(s)| > 0 && AllDigits(Unsigned(s))
  }

  /** The mathematical value of a decimal literal. */
  function LiteralValue(s: string): int
    requires IsDecimalLiteral(s)
  {
    var magnitude: int := DigitsValue(Unsigned(s));
    if s[0] == '-' then -magnitude else magnitude
  }

  /** Reads the digits of `s` from index `i` on, left to right, multiplying the
      running value by ten per digit; gives up at the first non-digit. */
  function ScanDigits(s: string, i: nat, acc: nat): Option<nat>
    requires i <= |s|
    decreases |s| - i
  {
    if i == |s| then Some(acc)
    else if !IsDigit(s[i]) then None
    else ScanDigits(s, i + 1, 10 * acc + (s[i] as int - '0' as int))
  }

  /** Scanning the rest of the text, having read the digits from `start` to `i`,
      gives the value of all the digits from `start` on, or nothing when a
      non-digit follows. */
  lemma {:induction false} ScanDigitsReadsDigits(s: string, start: nat, i: nat)
    requires start <= i <= |s| && AllDigits(s[start..i])
    ensures ScanDigits(s, i, DigitsValue(s[start..i])) ==
              (if AllDigits(s[start..]) then Some(DigitsValue(s[start..])) else None)
    decreases |s| - i
  {
    if i == |s| {
      assert s[start..i] == s[start..];
    } else if !IsDigit(s[i]) {
      assert s[start..][i - start] == s[i];
    } else {
      var next := s[start..i + 1];
      assert next[..|next| - 1] == s[start..i];
      assert AllDigits(next);
      assert DigitsValue(next) == 10 * DigitsValue(s[start..i]) + (s[i] as int - '0' as int);
      ScanDigitsReadsDigits(s, start, i + 1);
    }
  }

  /** `Integer.parseInt` (with `lo`, `hi` the `int` range) and `Long.parseLong`
      (with the `long` range): succeeds exactly on a decimal literal whose value is
      within the range, and then yields that value; otherwise throws
      `NumberFormatException` for the input. */
  function ParseDecimal(s: string, lo: int, hi: int): (r: Result<int, SetError>)
    ensures r.Success? <==> IsDecimalLiteral(s) && lo <= LiteralValue(s) <= hi
    ensures r.Success? ==> r.value == LiteralValue(s) && lo <= r.value <= hi
    ensures r.Failure? ==> r.error == NumberFormat(s)
  {
    var start := if |s| > 0 && (s[0] == '-' || s[0] == '+') then 1 else 0;
    if start == |s| then
      Failure(NumberFormat(s))
    else
      ScanDigitsReadsDigits(s, start, start);
      assert s[start..start] == [];
      assert Unsigned(s) == s[start..];
      match ScanDigits(s, start, 0)
      case None => Failure(NumberFormat(s))
      case Some(magnitude) =>
        var value: int := if s[0] == '-' then 0 - magnitude else magnitude;
        if lo <= value <= hi then Success(value) else Failure(NumberFormat(s))
  }

  /** The decimal digits of a natural number, most significant first. */
  function NatDigits(n: nat): string
    decreases n
  {
    if n < 10 then [('0' as int + n) as char]
    else NatDigits(n / 10) + [('0' as int + n % 10) as char]
  }

  /** `Integer.toString` / `Long.toString`. */
  function DecimalString(n: int): string
  {
    if n < 0 then "-" + NatDigits(-n) else NatDigits(n)
  }

  lemma {:induction false} NatDigitsValue(n: nat)
    ensures AllDigits(NatDigits(n)) && DigitsValue(NatDigits(n)) == n
    decreases n
  {
    if n >= 10 {
      NatDigitsValue(n / 10);
      var ds := NatDigits(n);
      assert ds[..|ds| - 1] == NatDigits(n / 10);
    }
  }

  /** Parsing what `toString` prints gives the number back, for every number in
      range: the textual form the loader stores round-trips through the parser. */
  lemma DecimalRoundTrip(n: int, lo: int, hi: int)
    requires lo <= n <= hi
    ensures ParseDecimal(DecimalString(n), lo, hi) == Success(n)
  {
    NatDigitsValue(if n < 0 then -n else n);
    var s := DecimalString(n);
    if n < 0 {
      assert Unsigned(s) == NatDigits(-n);
    } else {
      assert Unsigned(s) == NatDigits(n);
    }
  }

  /** The type is `k` or its box. */
  predicate IsKind(t: JavaType, k: Kind)
  {
    (t.Primitive? || t.Boxed?) && t.kind == k
  }

  /** A value a field of type `t` can hold after a successful set: the matching
      shape, and an integer within the type's range. */
  predicate Fits(t: JavaType, v: Value)
  {
    match t
    case StringType => v.Str?
    case OtherType(_) => false
    case _ =>
      match t.kind
      case IntKind => v.IntValue? && IntMin <= v.i <= IntMax
      case LongKind => v.LongValue? && LongMin <= v.l <= LongMax
      case FloatKind => v.FloatValue?
      case DoubleKind => v.DoubleValue?
      case BooleanKind => v.BoolValue?
  }

  /** The conversion `setFieldValue` applies for a supported kind; a primitive and
      its box share it. */
  function CoerceKind(k: Kind, text: string, parseFloat: string -> Option<Floating>,
                      parseDouble: string -> Option<Floating>): Result<Value, SetError>
  {
    match k
    case IntKind =>
      (match ParseDecimal(text, IntMin, IntMax)
       case Success(n) => Success(IntValue(n))
       case Failure(e) => Failure(e))
    case LongKind =>
      (match ParseDecimal(text, LongMin, LongMax)
       case Success(n) => Success(LongValue(n))
       case Failure(e) => Failure(e))
    case FloatKind =>
      (match parseFloat(text)
       case Some(f) => Success(FloatValue(f))
       case None => Failure(NumberFormat(text)))
    case DoubleKind =>
      (match parseDouble(text)
       case Some(d) => Success(DoubleValue(d))
       case None => Failure(NumberFormat(text)))
    case BooleanKind => Success(BoolValue(EqualsIgnoreCase(text, "true")))
  }

  /** The type dispatch of `setFieldValue`: a `String` field takes the text verbatim;
      an `int`/`Integer` or `long`/`Long` field succeeds exactly on an in-range
      decimal literal; a `float`/`Float` or `double`/`Double` field takes exactly
      what the parser gives and fails exactly when it rejects the text; a
      `boolean`/`Boolean` field never fails and is true exactly for `true` in any
      letter case; any other type is unsupported. A success always fits the
      field's type. */
  function Coerce(t: JavaType, text: string, parseFloat: string -> Option<Floating>,
                  parseDouble: string -> Option<Floating>): (r: Result<Value, SetError>)
    ensures t == StringType ==> r == Success(Str(text))
    ensures t.OtherType? ==> r == Failure(UnsupportedFieldType(t.name))
    ensures IsKind(t, IntKind) ==>
              (r.Success? <==> IsDecimalLiteral(text) && IntMin <= LiteralValue(text) <= IntMax)
    ensures IsKind(t, IntKind) && r.Success? ==> r.value == IntValue(LiteralValue(text))
    ensures IsKind(t, LongKind) ==>
              (r.Success? <==> IsDecimalLiteral(text) && LongMin <= LiteralValue(text) <= LongMax)
    ensures IsKind(t, LongKind) && r.Success? ==> r.value == LongValue(LiteralValue(text))
    ensures IsKind(t, FloatKind) ==>
              r == (if parseFloat(text).Some? then Success(FloatValue(parseFloat(text).value))
                    else Failure(NumberFormat(text)))
    ensures IsKind(t, DoubleKind) ==>
              r == (if parseDouble(text).Some? then Success(DoubleValue(parseDouble(text).value))
                    else Failure(NumberFormat(text)))
    ensures IsKind(t, BooleanKind) ==> r == Success(BoolValue(EqualsIgnoreCase(text, "true")))
    ensures r.Failure? && !t.OtherType? ==> r.error == NumberFormat(text)
    ensures r.Success? ==> Fits(t, r.value)
  {
    match t
    case StringType => Success(Str(text))
    case Primitive(k) => CoerceKind(k, text, parseFloat, parseDouble)
    case Boxed(k) => CoerceKind(k, text, parseFloat, parseDouble)
    case OtherType(name) => Failure(UnsupportedFieldType(name))
  }

  /** `int` and `Integer` (and each other primitive and its box) take the same
      branch and give the same result. */
  lemma PrimitiveAndBoxedAgree(k: Kind, text: string, parseFloat: string -> Option<Floating>,
                               parseDouble: string -> Option<Floating>)
    ensures Coerce(Primitive(k), text, parseFloat, parseDouble) == Coerce(Boxed(k), text, parseFloat, parseDouble)
  {
  }

  /** The fields of one object and, if the set threw, why. */
  datatype Assignment = Assignment(values: map<string, Value>, error: Option<SetError>)

  /** `setFieldValue(field, obj, text)`: the text is converted first, and only then
      does `field.set` run. `setFieldValue` never calls `setAccessible`, so
      `accessible` says whether Java language access control lets the caller write
      the field (a public, non-final field, or one the caller has already opened).
      A failed conversion, a forbidden access or a field the object does not have
      leaves every field as it was, each with its own exception; otherwise exactly
      the one field is written, with the converted value. */
  function SetFieldValue(values: map<string, Value>, field: Field, text: string, accessible: bool,
                         parseFloat: string -> Option<Floating>,
                         parseDouble: string -> Option<Floating>): (r: Assignment)
    ensures r.error.Some? ==> r.values == values
    ensures Coerce(field.fieldType, text, parseFloat, parseDouble).Failure? ==>
              r.error == Some(Coerce(field.fieldType, text, parseFloat, parseDouble).error)
    ensures Coerce(field.fieldType, text, parseFloat, parseDouble).Success? && !accessible ==>
              r.error == Some(IllegalAccess(field.name))
    ensures Coerce(field.fieldType, text, parseFloat, parseDouble).Success? && accessible && field.name !in values ==>
              r.error == Some(NotAFieldOf(field.name))
    ensures r.error.None? <==>
              Coerce(field.fieldType, text, parseFloat, parseDouble).Success? && accessible && field.name in values
    ensures r.error.None? ==>
              && r.values.Keys == values.Keys
              && r.values[field.name] == Coerce(field.fieldType, text, parseFloat, parseDouble).value
              && Fits(field.fieldType, r.values[field.name])
              && forall n :: n in values && n != field.name ==> r.values[n] == values[n]
  {
    match Coerce(field.fieldType, text, parseFloat, parseDouble)
    case Failure(e) => Assignment(values, Some(e))
    case Success(v) =>
      if !accessible then Assignment(values, Some(IllegalAccess(field.name)))
      else if field.name !in values then Assignment(values, Some(NotAFieldOf(field.name)))
      else Assignment(values[field.name := v], None)
  }

  /** As written, `setFieldValue` does not open the field, so a private field the
      caller has not opened is never written, even with a text that converts:
      `field.set` throws `IllegalAccessException`. */
  lemma PrivateFieldIsNotWritten(values: map<string, Value>, name: string, text: string,
                                 parseFloat: string -> Option<Floating>,
                                 parseDouble: string -> Option<Floating>)
    requires name in values
    ensures SetFieldValue(values, Field(name, StringType), text, false, parseFloat, parseDouble)
            == Assignment(values, Some(IllegalAccess(name)))
  {
  }

  /** `setFieldValue` as its documentation describes it, writing the field "even if
      the field is private": the field is opened before `field.set`, so only the
      conversion and the object's own fields decide. */
  function SetFieldValueOpened(values: map<string, Value>, field: Field, text: string,
                               parseFloat: string -> Option<Floating>,
                               parseDouble: string -> Option<Floating>): (r: Assignment)
    ensures r.error.Some? ==> r.values == values
    ensures r.error.None? <==>
              Coerce(field.fieldType, text, parseFloat, parseDouble).Success? && field.name in values
    ensures r.error.None? ==>
              && r.values.Keys == values.Keys
              && r.values[field.name] == Coerce(field.fieldType, text, parseFloat, parseDouble).value
              && forall n :: n in values && n != field.name ==> r.values[n] == values[n]
  {
    SetFieldValue(values, field, text, true, parseFloat, parseDouble)
  }
}
