/** The value coercion applied to every measurement of a weather record:
    `SPARQLService.handleMqValue` and the `Integer.valueOf` parse it relies on. */
module Coercion {
  import opened Wrappers

  /** Bounds of Java's 32-bit `int`. */
  const IntMin: int := -0x8000_0000
  const IntMax: int := 0x7fff_ffff

  /** The sentinel token meaning "measure unavailable". */
  const Mq: string := "mq"

  /** The default handed to `handleMqValue`. Its runtime class (`Integer`, `Double`
      or `String`) selects the conversion and it is what the coercion falls back to. */
  datatype Default = IntDef(i: int) | DblDef(d: real) | StrDef(s: string)

  /** What `handleMqValue` returns: a value of the same class as the default. */
  datatype Value = IntVal(i: int) | DblVal(d: real) | StrVal(s: string)

  /** `Double.valueOf`, whose grammar and rounding are not modelled: `None` stands
      for the `NumberFormatException` it throws. */
  type DoubleParser = string -> Option<real>

  /** The default itself, returned as a value. */
  function AsValue(default: Default): Value
  {
    match default
    case IntDef(i) => IntVal(i)
    case DblDef(d) => DblVal(d)
    case StrDef(s) => StrVal(s)
  }

  /** `v` is an instance of the default's class. */
  predicate SameClass(v: Value, default: Default)
  {
    match default
    case IntDef(_) => v.IntVal?
    case DblDef(_) => v.DblVal?
    case StrDef(_) => v.StrVal?
  }

  predicate IsDigit(c: char)
  {
    '0' <= c <= '9'
  }

  predicate AllDigits(s: string)
  {
    forall i :: 0 <= i < |s| ==> IsDigit(s[i])
  }

  function DigitValue(c: char): (d: nat)
    requires IsDigit(c)
    ensures d < 10
  {
    c as int - '0' as int
  }

  function DigitChar(d: nat): (c: char)
    requires d < 10
    ensures IsDigit(c) && DigitValue(c) == d
  {
    ('0' as int + d) as char
  }

  /** The number a run of ASCII decimal digits denotes, most significant first. */
  function DigitsValue(s: string): nat
    requires AllDigits(s)
  {
    if s == [] then 0 else DigitsValue(s[..|s| - 1]) * 10 + DigitValue(s[|s| - 1])
  }

  /** The syntax `Integer.valueOf` accepts: an optional `+` or `-`, then at least one digit. */
  predicate IsIntegerSyntax(s: string)
  {
    if |s| > 0 && (s[0] == '-' || s[0] == '+') then |s| > 1 && AllDigits(s[1..])
    else |s| > 0 && AllDigits(s)
  }

  /** The number an optionally signed run of digits denotes, leading zeros allowed. */
  function SignedValue(s: string): int
    requires IsIntegerSyntax(s)
  {
    if s[0] == '-' then -(DigitsValue(s[1..]) as int)
    else if s[0] == '+' then DigitsValue(s[1..])
    else DigitsValue(s)
  }

  /** `Integer.valueOf(s)` on ASCII input: `None` where Java throws `NumberFormatException`,
      that is, for anything but an optionally signed run of digits and for values
      outside the 32-bit range. */
  function ParseInt(s: string): (r: Option<int>)
    ensures r.Some? ==> IsIntegerSyntax(s)
    ensures r.Some? ==> IntMin <= r.value <= IntMax
    ensures r.Some? ==> r.value == SignedValue(s)
    ensures IsIntegerSyntax(s) && IntMin <= SignedValue(s) <= IntMax ==> r == Some(SignedValue(s))
  {
    if s == [] then None
    else
      var digits := if s[0] == '-' || s[0] == '+' then s[1..] else s;
      if digits == [] || !AllDigits(digits) then None
      else
        var v: int := if s[0] == '-' then -(DigitsValue(digits) as int) else DigitsValue(digits);
        if IntMin <= v <= IntMax then Some(v) else None
  }

  /** Canonical decimal text of a natural number: digits only, no leading zero. */
  function FormatNat(n: nat): (s: string)
    ensures |s| > 0 && AllDigits(s)
    ensures |s| > 1 ==> s[0] != '0'
    decreases n
  {
    if n < 10 then [DigitChar(n)] else FormatNat(n / 10) + [DigitChar(n % 10)]
  }

  /** Canonical decimal text of an integer, as `Integer.toString` writes it. */
  function FormatInt(n: int): (s: string)
    ensures IsIntegerSyntax(s)
    ensures s[0] != '+' && (s[0] == '-' <==> n < 0)
  {
    if n < 0 then "-" + FormatNat(-n) else FormatNat(n)
  }

  lemma {:induction false} DigitsValueOfFormatNat(n: nat)
    ensures DigitsValue(FormatNat(n)) == n
    decreases n
  {
    if n >= 10 {
      var s := FormatNat(n);
      assert s[..|s| - 1] == FormatNat(n / 10);
      DigitsValueOfFormatNat(n / 10);
    }
  }

  /** Every 32-bit integer written in canonical decimal parses back to itself. */
  lemma ParseIntFormatInt(n: int)
    requires IntMin <= n <= IntMax
    ensures ParseInt(FormatInt(n)) == Some(n)
  {
    var s := FormatInt(n);
    if n < 0 {
      assert s[1..] == FormatNat(-n);
      DigitsValueOfFormatNat(-n);
    } else {
      DigitsValueOfFormatNat(n);
    }
  }

  /** Canonical decimals outside the 32-bit range are rejected, as Java rejects them. */
  lemma ParseIntFormatIntOutOfRange(n: int)
    requires n < IntMin || IntMax < n
    ensures ParseInt(FormatInt(n)) == None
  {
    var s := FormatInt(n);
    if n < 0 {
      assert s[1..] == FormatNat(-n);
      DigitsValueOfFormatNat(-n);
    } else {
      DigitsValueOfFormatNat(n);
    }
  }

  /** A decimal point makes `Integer.valueOf` fail: fractional text is never an int. */
  lemma ParseIntRejectsDecimalPoint(s: string, k: nat)
    requires k < |s| && s[k] == '.'
    ensures ParseInt(s) == None
  {
  }

  /** How `Integer.valueOf` treats signs, leading zeros, the 32-bit bounds and other text. */
  lemma ParseIntExamples()
    ensures ParseInt("+42") == Some(42) && ParseInt("-0") == Some(0) && ParseInt("007") == Some(7)
    ensures ParseInt("+87") == Some(87) && ParseInt("0087") == Some(87)
    ensures ParseInt("") == None && ParseInt("-") == None && ParseInt("+") == None
    ensures ParseInt(" 1") == None && ParseInt("278.35") == None && ParseInt(Mq) == None
  {
    assert "+42"[1..] == "42" && "42"[..1] == "4";
    assert DigitsValue("42") == 42;
    assert "007"[..2] == "00" && "00"[..1] == "0";
    assert "+87"[1..] == "87" && "87"[..1] == "8" && DigitsValue("87") == 87;
    assert "0087"[..3] == "008" && "008"[..2] == "00" && "00"[..1] == "0";
    ParseIntRejectsDecimalPoint("278.35", 3);
  }

  /** `handleMqValue(solution, variable, default)`, where `binding` is the literal the
      solution binds to the variable (`None` when `solution.contains` is false). It never
      fails: an absent binding, the sentinel `mq` and a value the conversion rejects all
      give back the default. */
  function HandleMq(binding: Option<string>, default: Default, parseDouble: DoubleParser): (r: Value)
    ensures SameClass(r, default)
    ensures binding.None? ==> r == AsValue(default)
    ensures binding == Some(Mq) ==> r == AsValue(default)
    ensures binding.Some? && binding.value != Mq && default.StrDef? ==> r == StrVal(binding.value)
    ensures binding.Some? && binding.value != Mq && default.IntDef? ==>
              r == (if ParseInt(binding.value).Some? then IntVal(ParseInt(binding.value).value) else AsValue(default))
    ensures binding.Some? && binding.value != Mq && default.DblDef? ==>
              r == (if parseDouble(binding.value).Some? then DblVal(parseDouble(binding.value).value) else AsValue(default))
  {
    match binding
    case None => AsValue(default)
    case Some(value) =>
      if value == Mq then AsValue(default)
      else
        match default
        case IntDef(_) =>
          (match ParseInt(value) case Some(n) => IntVal(n) case None => AsValue(default))
        case DblDef(_) =>
          (match parseDouble(value) case Some(x) => DblVal(x) case None => AsValue(default))
        case StrDef(_) => StrVal(value)
  }

  /** With an `Integer` default, any optionally signed run of digits whose value fits in
      32 bits (`"+87"`, `"0087"`, `"-5"`) comes out as that value. */
  lemma HandleMqIntegerValue(s: string, i: int, parseDouble: DoubleParser)
    requires IsIntegerSyntax(s) && IntMin <= SignedValue(s) <= IntMax
    ensures HandleMq(Some(s), IntDef(i), parseDouble) == IntVal(SignedValue(s))
  {
  }

  /** With an `Integer` default, any text holding a decimal point (`"1013.2"`) silently
      becomes the default. */
  lemma HandleMqIntegerDropsFraction(s: string, k: nat, i: int, parseDouble: DoubleParser)
    requires k < |s| && s[k] == '.'
    ensures HandleMq(Some(s), IntDef(i), parseDouble) == IntVal(i)
  {
  }
}
