/**
  Character classes of the lexer and the two number conversions the system relies on:
  JavaScript's `Number(lexeme)` on a numeral lexeme and `toString()` on a numeral payload.
  A number is modelled as an exact natural number or NaN; floating-point rounding is not modelled.
 */
module Text {

  /** A numeric payload: an exact natural number, or NaN. */
  datatype Number = Num(n: nat) | NaN

  /** Only the space is white space. */
  predicate IsWhiteSpace(c: char) { c == ' ' }

  /** The unaccented Latin letters in either case. */
  predicate IsAlpha(c: char) { ('a' <= c <= 'z') || ('A' <= c <= 'Z') }

  /** The ten decimal digits. */
  predicate IsNumeric(c: char) { '0' <= c <= '9' }

  predicate IsAlphaNumeric(c: char) { IsAlpha(c) || IsNumeric(c) }

  /**
    The character classes are ASCII only: the letters are exactly the 52 listed, the digits
    the 10 listed, no character is both, and white space is the space alone, which is no other
    character the lexer knows.
   */
  lemma CharClasses(c: char)
    ensures IsAlpha(c) <==> c in "abcdefghijklmnopqrstuvwxyz" || c in "ABCDEFGHIJKLMNOPQRSTUVWXYZ"
    ensures IsNumeric(c) <==> c in "0123456789"
    ensures IsAlphaNumeric(c) <==> c in "abcdefghijklmnopqrstuvwxyz" || c in "ABCDEFGHIJKLMNOPQRSTUVWXYZ" || c in "0123456789"
    ensures !(IsAlpha(c) && IsNumeric(c))
    ensures IsWhiteSpace(c) ==> !IsAlphaNumeric(c) && c !in "()-:>"
    ensures c in "\t\n\r" ==> !IsWhiteSpace(c)
  {
    LowerLetters(c);
    UpperLetters(c);
    if IsNumeric(c) {
      assert "0123456789"[c as int - '0' as int] == c;
    }
  }

  lemma LowerLetters(c: char)
    ensures c in "abcdefghijklmnopqrstuvwxyz" <==> 'a' <= c <= 'z'
  {
    OnlyLower(c);
    if 'a' <= c <= 'z' {
      assert "abcdefghijklmnopqrstuvwxyz"[c as int - 'a' as int] == c;
    }
  }

  lemma OnlyLower(c: char)
    ensures c in "abcdefghijklmnopqrstuvwxyz" ==> 'a' <= c <= 'z'
  {
  }

  lemma UpperLetters(c: char)
    ensures c in "ABCDEFGHIJKLMNOPQRSTUVWXYZ" <==> 'A' <= c <= 'Z'
  {
    OnlyUpper(c);
    if 'A' <= c <= 'Z' {
      assert "ABCDEFGHIJKLMNOPQRSTUVWXYZ"[c as int - 'A' as int] == c;
    }
  }

  lemma OnlyUpper(c: char)
    ensures c in "ABCDEFGHIJKLMNOPQRSTUVWXYZ" ==> 'A' <= c <= 'Z'
  {
  }

  predicate AllDigits(s: string) {
    forall i :: 0 <= i < |s| ==> IsNumeric(s[i])
  }

  function DigitValue(c: char): nat
    requires IsNumeric(c)
  {
    c as int - '0' as int
  }

  function DigitChar(d: nat): (c: char)
    requires d < 10
    ensures IsNumeric(c) && DigitValue(c) == d
  {
    ('0' as int + d) as char
  }

  /** The value of a string of decimal digits, most significant first. */
  function DecimalValue(s: string): nat
    requires AllDigits(s)
    decreases |s|
  {
    if |s| == 0 then 0 else DecimalValue(s[..|s| - 1]) * 10 + DigitValue(s[|s| - 1])
  }

  function Pow10(e: nat): (r: nat)
    ensures r >= 1
  {
    if e == 0 then 1 else 10 * Pow10(e - 1)
  }

  /** `n.toString()`: the shortest decimal numeral of `n`. */
  function NatToString(n: nat): (s: string)
    ensures |s| > 0 && AllDigits(s)
    ensures DecimalValue(s) == n
    ensures |s| > 1 ==> s[0] != '0'
  {
    if n < 10 then [DigitChar(n)]
    else
      var s := NatToString(n / 10) + [DigitChar(n % 10)];
      assert s[..|s| - 1] == NatToString(n / 10);
      s
  }

  /** `v.toString()` for a numeric payload. */
  function NumberToString(v: Number): string {
    match v
    case Num(n) => NatToString(n)
    case NaN => "NaN"
  }

  /** Length of the leading run of digits of `s`. */
  function DigitRun(s: string): (k: nat)
    ensures k <= |s| && AllDigits(s[..k])
    ensures k == |s| || !IsNumeric(s[k])
  {
    if |s| == 0 || !IsNumeric(s[0]) then 0
    else
      var k := 1 + DigitRun(s[1..]);
      assert s[..k] == [s[0]] + s[1..][..k - 1];
      k
  }

  /** Concatenation regroups freely; the one regrouping step the proofs below call on. */
  lemma AppendAssoc<T>(x: seq<T>, y: seq<T>, z: seq<T>)
    ensures (x + y) + z == x + (y + z)
  {
  }

  /**
    A lexeme the lexer hands to `Number()`: one digit, or two digits followed by letters and
    digits (after its first digit `lexNum` stops at anything but a second digit).
   */
  predicate IsNumeralLexeme(s: string) {
    |s| > 0 && IsNumeric(s[0]) && (|s| == 1 || IsNumeric(s[1]))
    && forall i :: 0 <= i < |s| ==> IsAlphaNumeric(s[i])
  }

  /** `s` is in exponent notation with the `e` or `E` at `k`: digits, the marker, digits. */
  predicate ExponentAt(s: string, k: int) {
    0 < k < |s| - 1 && (s[k] == 'e' || s[k] == 'E') && AllDigits(s[..k]) && AllDigits(s[k + 1..])
  }

  /** The value of a numeral in exponent notation: the mantissa times ten to the exponent. */
  function ExponentValue(s: string, k: int): nat
    requires ExponentAt(s, k)
  {
    DecimalValue(s[..k]) * Pow10(DecimalValue(s[k + 1..]))
  }

  /** The only place an exponent marker can sit is right after the leading run of digits. */
  lemma ExponentAtRun(s: string, k: nat)
    requires k <= |s| && AllDigits(s[..k]) && (k == |s| || !IsNumeric(s[k]))
    ensures forall j :: ExponentAt(s, j) ==> j == k
  {
  }

  /** In exponent notation every character but the marker is a digit. */
  lemma ExponentDigits(s: string, k: int)
    requires ExponentAt(s, k)
    ensures forall i :: 0 <= i < |s| && i != k ==> IsNumeric(s[i])
  {
    forall i | 0 <= i < |s| && i != k
      ensures IsNumeric(s[i])
    {
      if i < k {
        assert s[..k][i] == s[i];
      } else {
        assert s[k + 1..][i - k - 1] == s[i];
      }
    }
  }

  /**
    `Number(s)` on a numeral lexeme: a digit string is its decimal value, digits followed by
    `e` or `E` and a digit string is a number in exponent notation, anything else is NaN.
   */
  function NumberOf(s: string): (v: Number)
    requires IsNumeralLexeme(s)
    ensures AllDigits(s) ==> v == Num(DecimalValue(s))
    ensures forall k :: ExponentAt(s, k) ==> v == Num(ExponentValue(s, k))
    ensures v.Num? <==> AllDigits(s) || exists k :: ExponentAt(s, k)
    ensures (exists i :: 0 <= i < |s| && IsAlpha(s[i]) && s[i] != 'e' && s[i] != 'E') ==> v == NaN
  {
    var k := DigitRun(s);
    if k == |s| then
      assert s[..k] == s;
      assert forall j :: !ExponentAt(s, j) by {
        ExponentAtRun(s, k);
      }
      Num(DecimalValue(s))
    else if k + 1 < |s| && (s[k] == 'e' || s[k] == 'E') && AllDigits(s[k + 1..]) then
      assert ExponentAt(s, k) && !AllDigits(s) && (forall j :: ExponentAt(s, j) ==> j == k)
        && (forall i :: 0 <= i < |s| && i != k ==> IsNumeric(s[i])) by {
        ExponentAtRun(s, k);
        ExponentDigits(s, k);
      }
      Num(ExponentValue(s, k))
    else
      assert !AllDigits(s) && forall j :: !ExponentAt(s, j) by {
        ExponentAtRun(s, k);
      }
      NaN
  }
}
