/**
  The validation patterns of the import schema.  The schema writes each pattern
  as a PCRE expression and the filter applies it with preg_match; only eight
  distinct expressions occur, two of which accept the same language, so the
  seven languages are modelled as a finite enumeration with a matcher of its
  own instead of a regular-expression engine.
 */
module Patterns {

  /** One constructor per distinct expression used by the schema. */
  datatype Pattern =
    | Digits        // ^[0-9]+$
    | SignedDigits  // ^-?[0-9]+$
    | ShortDigits   // ^\d{1,4}$
    | Rank          // ^[A-G]$
    | BoolLike      // ^(TRUE|true|True|FALSE|false|False|0|1)?$
    | AnyLine       // ^.*+$ and ^.*?$ (the same language)
    | Decimal       // ^-?\d{1,2}\.?\d{,3}$, with {,3} read as {0,3}

  predicate IsDigit(c: char) { '0' <= c <= '9' }

  predicate AllDigits(s: string) { forall i :: 0 <= i < |s| ==> IsDigit(s[i]) }

  /** A non-empty run of ASCII digits: [0-9]+ */
  predicate Numeral(s: string) { |s| > 0 && AllDigits(s) }

  /** The words the boolean-like pattern accepts, the empty word included. */
  const BoolWords: set<string> := {"TRUE", "true", "True", "FALSE", "false", "False", "0", "1", ""}

  /** The text after an optional leading minus sign. */
  function Unsigned(s: string): (t: string)
    ensures s == t || s == "-" + t
  {
    if |s| > 0 && s[0] == '-' then s[1..] else s
  }

  /** Fixed-point text whose point sits at index k: k digits, '.', at most three digits. */
  predicate PointAt(t: string, k: nat)
  {
    k < |t| && t[k] == '.' && AllDigits(t[..k]) && AllDigits(t[k + 1..]) && |t| - k - 1 <= 3
  }

  /** Whether the whole of s is accepted by pattern p. */
  predicate Matches(p: Pattern, s: string)
  {
    match p
    case Digits => Numeral(s)
    case SignedDigits => Numeral(Unsigned(s))
    case ShortDigits => 1 <= |s| <= 4 && AllDigits(s)
    case Rank => |s| == 1 && 'A' <= s[0] <= 'G'
    case BoolLike => s in BoolWords
    case AnyLine => forall i :: 0 <= i < |s| ==> s[i] != '\n'
    case Decimal =>
      var t := Unsigned(s);
      (1 <= |t| <= 5 && AllDigits(t)) || PointAt(t, 1) || PointAt(t, 2)
  }

  /** The patterns that admit only an optionally signed run of digits. */
  predicate IsIntegerPattern(p: Pattern)
  {
    p == Digits || p == SignedDigits || p == ShortDigits
  }

  /** Every text an integer pattern accepts is an optional minus sign and a numeral. */
  lemma IntegerPatternsAcceptNumerals(p: Pattern, s: string)
    requires IsIntegerPattern(p) && Matches(p, s)
    ensures Numeral(Unsigned(s))
    ensures p != SignedDigits ==> Unsigned(s) == s
  {
    if p != SignedDigits {
      assert s[0] != '-' by { assert IsDigit(s[0]); }
    }
  }

  /** Fixed-point values with one or two integer digits and up to three decimals are accepted, signed or not. */
  lemma DecimalAcceptsFixedPoint(a: string, b: string)
    requires Numeral(a) && |a| <= 2 && AllDigits(b) && |b| <= 3
    ensures Matches(Decimal, a + "." + b)
    ensures Matches(Decimal, "-" + a + "." + b)
  {
    var t := a + "." + b;
    assert Unsigned(t) == t by { assert t[0] == a[0]; }
    assert t[..|a|] == a && t[|a| + 1..] == b;
    assert PointAt(t, |a|);
    var u := "-" + t;
    assert u[1..] == t;
  }

  /**
    The reading of the float pattern by PCRE2 releases before 10.43, where
    `{,3}` is not a quantifier but the four literal characters "{,3}":
    an optional minus, one or two digits, an optional point, one digit, "{,3}".
   */
  predicate MatchesDecimalLegacy(s: string)
  {
    var t := Unsigned(s);
    |t| >= 4 && t[|t| - 4..] == "{,3}" &&
    var u := t[..|t| - 4];
    (2 <= |u| <= 3 && AllDigits(u)) ||
    (|u| >= 3 && u[|u| - 2] == '.' && IsDigit(u[|u| - 1]) && 1 <= |u| - 2 <= 2 && AllDigits(u[..|u| - 2]))
  }

  /** Under the legacy reading no plain number is accepted: an accepted text always contains a brace. */
  lemma LegacyDecimalNeedsBrace(s: string)
    requires MatchesDecimalLegacy(s)
    ensures exists i :: 0 <= i < |s| && s[i] == '{'
  {
    var t := Unsigned(s);
    assert t[|t| - 4] == '{';
    if s == t {
      assert s[|s| - 4] == '{';
    } else {
      assert s == "-" + t;
      assert s[|s| - 4] == '{';
    }
  }

  /** The discrepancy on a concrete cell: "0.5" passes the intended reading and fails the legacy one. */
  lemma LegacyDecimalRejectsPlainValue()
    ensures Matches(Decimal, "0.5")
    ensures !MatchesDecimalLegacy("0.5")
  {
    DecimalAcceptsFixedPoint("0", "5");
    assert "0" + "." + "5" == "0.5";
  }
}
