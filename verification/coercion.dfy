/**
  Type-driven coercion of one accepted cell.  The column's SQL type string picks
  a cast by the first rule that applies: the int family, then `json`, then
  `bit(1)`, then float/double, and every other type keeps the text verbatim.
 */
module Coercion {
  import opened Patterns

  datatype Option<T> = None | Some(value: T)

  /** A decoded JSON document (associative arrays for objects). */
  datatype Json =
    | JNull
    | JBool(b: bool)
    | JNumber(literal: string)
    | JString(text: string)
    | JArray(items: seq<Json>)
    | JObject(members: seq<(string, Json)>)

  /**
    A coerced cell.  FloatV keeps the text the float cast reads: floating point
    is not modelled.  NullV is what a failed JSON decode yields; PHP has one
    null, so NullV and JsonV(JNull) (the text "null" decoded) are the same value
    to the program, and no contract here tells them apart.
   */
  datatype Value =
    | IntV(i: int)
    | BoolV(b: bool)
    | FloatV(source: string)
    | StrV(s: string)
    | JsonV(doc: Json)
    | NullV

  datatype Cast = ToInt | ToJson | ToBit | ToFloat | ToString

  /** s starts with p. */
  predicate HasPrefix(s: string, p: string)
  {
    |p| <= |s| && forall i :: 0 <= i < |p| ==> s[i] == p[i]
  }

  /** `^(|tiny|medium|big)int`: note that `smallint` is not in the family. */
  predicate IsIntFamily(typ: string)
  {
    HasPrefix(typ, "int") || HasPrefix(typ, "tinyint") || HasPrefix(typ, "mediumint") || HasPrefix(typ, "bigint")
  }

  /** `^(float|double)` */
  predicate IsFloatFamily(typ: string)
  {
    HasPrefix(typ, "float") || HasPrefix(typ, "double")
  }

  /** The cast the coercion switch selects for a column type, first match wins. */
  function CastFor(typ: string): Cast
  {
    if IsIntFamily(typ) then ToInt
    else if typ == "json" then ToJson
    else if typ == "bit(1)" then ToBit
    else if IsFloatFamily(typ) then ToFloat
    else ToString
  }

  /** A type whose first letter starts none of int, tinyint, mediumint, bigint is outside the int family. */
  lemma NotIntFamily(typ: string)
    requires |typ| > 0 && typ[0] != 'i' && typ[0] != 't' && typ[0] != 'm' && typ[0] != 'b'
    ensures !IsIntFamily(typ)
  {
  }

  /** The int rule on every integer type the formats use, and on bigint. */
  lemma IntRuleOnConcreteTypes()
    ensures CastFor("int(11) unsigned") == ToInt && CastFor("int(11)") == ToInt
    ensures CastFor("tinyint(4) unsigned") == ToInt && CastFor("tinyint(2) unsigned") == ToInt
    ensures CastFor("tinyint(1) unsigned") == ToInt && CastFor("bigint(20)") == ToInt
  {
    assert HasPrefix("int(11)", "int");
    assert HasPrefix("int(11) unsigned", "int");
    assert HasPrefix("tinyint(4) unsigned", "tinyint");
    assert HasPrefix("tinyint(2) unsigned", "tinyint");
    assert HasPrefix("tinyint(1) unsigned", "tinyint");
    assert HasPrefix("bigint(20)", "bigint");
  }

  /** The json, bit(1) and float rules on the types the formats use. */
  lemma OtherRulesOnConcreteTypes()
    ensures CastFor("float(5,3)") == ToFloat && CastFor("bit(1)") == ToBit && CastFor("json") == ToJson
  {
    assert "bit(1)"[0] == 'b' && "bit(1)"[2] == 't' && "json"[0] == 'j' && "float(5,3)"[0] == 'f';
  }

  /**
    The text types the formats use, and smallint, which the int rule does not
    name, fall through to a string.
   */
  lemma StringRuleOnConcreteTypes()
    ensures CastFor("varchar(255)") == ToString && CastFor("varchar(6)") == ToString
    ensures CastFor("varchar(1)") == ToString && CastFor("text") == ToString
    ensures CastFor("smallint(6)") == ToString
  {
    assert "varchar(255)"[0] == 'v' && "varchar(6)"[0] == 'v' && "varchar(1)"[0] == 'v';
    StringRuleByFirstLetter("varchar(255)");
    StringRuleByFirstLetter("varchar(6)");
    StringRuleByFirstLetter("varchar(1)");
    assert "smallint(6)"[0] == 's';
    StringRuleByFirstLetter("smallint(6)");
    assert "text"[1] == 'e';
  }

  /** A type that starts with v or s takes none of the switch's arms, so it stays a string. */
  lemma StringRuleByFirstLetter(typ: string)
    requires |typ| > 0 && (typ[0] == 'v' || typ[0] == 's')
    ensures CastFor(typ) == ToString
  {
    NotIntFamily(typ);
    assert "json"[0] == 'j' && "bit(1)"[0] == 'b' && "float"[0] == 'f' && "double"[0] == 'd';
  }

  // ---------------------------------------------------------------------
  // Integers: PHP's (int) cast of a string on a 64-bit build.

  const IntMax: int := 0x7fff_ffff_ffff_ffff
  const IntMin: int := -0x8000_0000_0000_0000

  /**
    The least magnitude whose nearest double is infinite, 2^1024 - 2^970: the
    midpoint between the largest finite double and 2^1024.
   */
  const DoubleOverflow: int := 0xFFFF_FFFF_FFFF_FC_00000000_00000000_00000000_00000000_00000000_00000000_00000000_00000000_00000000_00000000_00000000_00000000_00000000_00000000_00000000_00000000_00000000_00000000_00000000_00000000_00000000_00000000_00000000_00000000_00000000_00000000_00000000_00000000_00000000_00000000_00

  /**
    The integer a numeric string yields.  A value in the signed 64-bit range is
    kept.  A value outside it is read as a double, which saturates at the
    nearer bound while finite and gives 0 once it is infinite.
   */
  function CapToLong(n: int): (r: int)
    ensures IntMin <= r <= IntMax
    ensures IntMin <= n <= IntMax ==> r == n
    ensures IntMax < n < DoubleOverflow ==> r == IntMax
    ensures -DoubleOverflow < n < IntMin ==> r == IntMin
    ensures n >= DoubleOverflow || n <= -DoubleOverflow ==> r == 0
  {
    if n >= DoubleOverflow || n <= -DoubleOverflow then 0
    else if n > IntMax then IntMax
    else if n < IntMin then IntMin
    else n
  }

  function DigitValue(c: char): nat
    requires IsDigit(c)
  {
    c as int - '0' as int
  }

  function DigitChar(d: nat): (c: char)
    requires d < 10
    ensures IsDigit(c) && DigitValue(c) == d
  {
    ('0' as int + d) as char
  }

  /** The value of a run of decimal digits, most significant first. */
  function DigitsValue(d: string): nat
    requires AllDigits(d)
  {
    if d == [] then 0 else DigitsValue(d[..|d| - 1]) * 10 + DigitValue(d[|d| - 1])
  }

  /** The longest prefix of s made of digits. */
  function LeadingDigits(s: string): (d: string)
    ensures AllDigits(d) && |d| <= |s| && d == s[..|d|]
    ensures |d| < |s| ==> !IsDigit(s[|d|])
  {
    if s == [] || !IsDigit(s[0]) then [] else [s[0]] + LeadingDigits(s[1..])
  }

  /** A run of digits is its own longest digit prefix. */
  lemma LeadingDigitsOfDigits(t: string)
    requires AllDigits(t)
    ensures LeadingDigits(t) == t
  {
  }

  /**
    (int) of a string: an optional sign, then the leading digits (none gives 0),
    brought into the 64-bit range as CapToLong says.
   */
  function IntCast(s: string): int
  {
    var negative := |s| > 0 && s[0] == '-';
    var body := if |s| > 0 && (s[0] == '-' || s[0] == '+') then s[1..] else s;
    var magnitude: int := DigitsValue(LeadingDigits(body));
    CapToLong(if negative then -magnitude else magnitude)
  }

  /** Text with no digit after its optional sign (even the empty text) casts to zero rather than failing. */
  lemma IntCastOfNonNumericIsZero(s: string)
    requires LeadingDigits(if |s| > 0 && (s[0] == '-' || s[0] == '+') then s[1..] else s) == []
    ensures IntCast(s) == 0
  {
  }

  /** On a validated integer cell the cast reads the whole text. */
  lemma IntCastOfNumeral(s: string)
    requires Numeral(Unsigned(s))
    ensures IntCast(s) == CapToLong(if s[0] == '-' then -(DigitsValue(Unsigned(s)) as int) else DigitsValue(s))
  {
    var t := Unsigned(s);
    LeadingDigitsOfDigits(t);
    if s[0] == '-' {
      assert s[1..] == t;
    } else {
      assert s == t && IsDigit(s[0]);
    }
  }

  /**
    A numeral too long for a double casts to 0, not to the upper bound: the
    integer patterns admit such a cell.
   */
  lemma HugeNumeralCastsToZero(s: string)
    requires Numeral(s) && DigitsValue(s) >= DoubleOverflow
    ensures IntCast(s) == 0
    ensures IntCast("-" + s) == 0
  {
    IntCastOfNumeral(s);
    var m := "-" + s;
    assert m[1..] == s;
    IntCastOfNumeral(m);
  }

  /** Decimal text of a natural number, as %d prints it. */
  function NatToString(n: nat): (r: string)
    ensures Numeral(r) && DigitsValue(r) == n
    ensures r[0] == '0' ==> n == 0
  {
    if n < 10 then [DigitChar(n)]
    else
      var r := NatToString(n / 10) + [DigitChar(n % 10)];
      assert r[..|r| - 1] == NatToString(n / 10);
      r
  }

  /** The integer cast undoes %d: printing then casting gives the number back, with or without a minus sign. */
  lemma {:induction false} IntCastRoundTrip(n: nat)
    ensures n <= IntMax ==> IntCast(NatToString(n)) == n
    ensures n <= -IntMin ==> IntCast("-" + NatToString(n)) == -(n as int)
  {
    var d := NatToString(n);
    IntCastOfNumeral(d);
    var m := "-" + d;
    assert m[1..] == d;
    IntCastOfNumeral(m);
  }

  // ---------------------------------------------------------------------
  // bit(1): /^(true|1)$/i

  function LowerAscii(c: char): char
  {
    if 'A' <= c <= 'Z' then (c as int + 32) as char else c
  }

  predicate EqualsIgnoringCase(s: string, w: string)
  {
    |s| == |w| && forall i :: 0 <= i < |s| ==> LowerAscii(s[i]) == LowerAscii(w[i])
  }

  /** true exactly for any casing of "true" and for "1". */
  function BitCast(s: string): bool
  {
    EqualsIgnoringCase(s, "true") || s == "1"
  }

  /** On the texts the boolean-like pattern admits, the bit cast is true for TRUE, true, True and 1 only. */
  lemma BitCastOfBoolWords(s: string)
    requires Matches(BoolLike, s)
    ensures BitCast(s) <==> s in {"TRUE", "true", "True", "1"}
  {
    if s == "FALSE" || s == "false" || s == "False" {
      assert LowerAscii(s[0]) == 'f';
    } else if s == "TRUE" || s == "true" || s == "True" {
      assert EqualsIgnoringCase(s, "true");
    }
  }

  // ---------------------------------------------------------------------
  // json: single quotes become double quotes before decoding.

  function SwapQuote(c: char): char
  {
    if c == '\'' then '"' else c
  }

  /** str_replace("'", '"', s) */
  function ReplaceQuotes(s: string): (r: string)
    ensures |r| == |s|
    ensures forall i :: 0 <= i < |s| ==> r[i] == SwapQuote(s[i])
  {
    if s == [] then [] else ReplaceQuotes(s[..|s| - 1]) + [SwapQuote(s[|s| - 1])]
  }

  predicate IsQuote(c: char) { c == '\'' || c == '"' }

  /** s and t are the same text except that either quote character may stand for the other. */
  predicate SameUpToQuotes(s: string, t: string)
  {
    |s| == |t| && forall i :: 0 <= i < |s| ==> s[i] == t[i] || (IsQuote(s[i]) && IsQuote(t[i]))
  }

  /**
    Coercion of one accepted cell to the value its column type calls for.
    `decode` stands for json_decode in associative mode (None when it fails).
   */
  function Coerce(typ: string, text: string, decode: string -> Option<Json>): (v: Value)
    ensures v.IntV? <==> IsIntFamily(typ)
    ensures v.BoolV? <==> CastFor(typ) == ToBit
    ensures v.FloatV? <==> CastFor(typ) == ToFloat
    ensures v.JsonV? || v.NullV? <==> CastFor(typ) == ToJson
    ensures v.StrV? <==> CastFor(typ) == ToString
    ensures v.StrV? || v.FloatV? ==> (if v.StrV? then v.s else v.source) == text
    ensures v.IntV? ==> v.i == IntCast(text)
    ensures v.BoolV? ==> v.b == BitCast(text)
    ensures v.JsonV? ==> decode(ReplaceQuotes(text)) == Some(v.doc)
    ensures v.NullV? ==> decode(ReplaceQuotes(text)).None?
  {
    match CastFor(typ)
    case ToInt => IntV(IntCast(text))
    case ToJson =>
      (match decode(ReplaceQuotes(text))
       case Some(doc) => JsonV(doc)
       case None => NullV)
    case ToBit => BoolV(BitCast(text))
    case ToFloat => FloatV(text)
    case ToString => StrV(text)
  }

  /**
    A json cell written with single quotes coerces to the same value as the one
    written with double quotes, and a text the decoder refuses becomes null
    instead of an error.
   */
  lemma JsonIgnoresQuoteStyle(s: string, t: string, decode: string -> Option<Json>)
    requires SameUpToQuotes(s, t)
    ensures Coerce("json", s, decode) == Coerce("json", t, decode)
    ensures decode(ReplaceQuotes(s)).None? ==> Coerce("json", s, decode) == NullV
    ensures decode(ReplaceQuotes(s)).Some? ==> Coerce("json", s, decode) == JsonV(decode(ReplaceQuotes(s)).value)
  {
    OtherRulesOnConcreteTypes();
    assert ReplaceQuotes(s) == ReplaceQuotes(t);
  }
}
