/**
  The java.lang.String and number-formatting operations the core relies on:
  blank tests, trimming, case mapping of column names and status words,
  and the decimal text form of integers (toString / parseInt / parseLong).

  Case mapping covers the ASCII letters only; digits are the ASCII digits.
 */
module JavaText {
  import opened Wrappers

  /** Character.isWhitespace: the space separators other than the no-break
      spaces, the line and paragraph separators, and the controls
      U+0009..U+000D and U+001C..U+001F. */
  predicate IsWhitespace(c: char) {
    var k := c as int;
    (0x09 <= k <= 0x0D) || (0x1C <= k <= 0x20) || k == 0x1680
    || (0x2000 <= k <= 0x2006) || (0x2008 <= k <= 0x200A)
    || k == 0x2028 || k == 0x2029 || k == 0x205F || k == 0x3000
  }

  /** String.isBlank: empty, or whitespace only. */
  predicate IsBlank(s: string) {
    forall i :: 0 <= i < |s| ==> IsWhitespace(s[i])
  }

  /** String.trim drops every leading and trailing character at or below U+0020. */
  function TrimStart(s: string): (r: string)
    ensures |r| <= |s| && r == s[|s| - |r|..]
  {
    if |s| > 0 && s[0] as int <= 0x20 then TrimStart(s[1..]) else s
  }

  function TrimEnd(s: string): (r: string)
    ensures |r| <= |s| && r == s[..|r|]
  {
    if |s| > 0 && s[|s| - 1] as int <= 0x20 then TrimEnd(s[..|s| - 1]) else s
  }

  function Trim(s: string): string {
    TrimEnd(TrimStart(s))
  }

  /** Every character of the trimmed string is a character of the original. */
  lemma TrimKeepsCharacters(s: string)
    ensures forall i :: 0 <= i < |Trim(s)| ==> Trim(s)[i] in s
  {
    var a := TrimStart(s);
    var b := TrimEnd(a);
    forall i | 0 <= i < |b| ensures b[i] in s {
      var k := |s| - |a| + i;
      assert b[i] == a[i] == s[k];
    }
  }

  /** What trimming leaves starts and ends above U+0020. */
  lemma {:induction false} TrimStartEdge(s: string)
    ensures |TrimStart(s)| == 0 || TrimStart(s)[0] as int > 0x20
  {
    if |s| > 0 && s[0] as int <= 0x20 {
      TrimStartEdge(s[1..]);
    }
  }

  lemma {:induction false} TrimEndEdge(s: string)
    ensures |TrimEnd(s)| == 0 || TrimEnd(s)[|TrimEnd(s)| - 1] as int > 0x20
  {
    if |s| > 0 && s[|s| - 1] as int <= 0x20 {
      TrimEndEdge(s[..|s| - 1]);
    }
  }

  /** Trimming twice trims nothing more. */
  lemma TrimIdempotent(s: string)
    ensures Trim(Trim(s)) == Trim(s)
  {
    var a := TrimStart(s);
    var t := TrimEnd(a);
    TrimStartEdge(s);
    TrimEndEdge(a);
    if |t| > 0 {
      assert t[0] == a[0];
      assert TrimStart(t) == t;
      assert TrimEnd(t) == t;
    }
  }

  function LowerChar(c: char): char {
    if 'A' <= c <= 'Z' then (c as int + 32) as char else c
  }

  function UpperChar(c: char): char {
    if 'a' <= c <= 'z' then (c as int - 32) as char else c
  }

  function ToLower(s: string): (r: string)
    ensures |r| == |s|
    ensures forall i :: 0 <= i < |s| ==> r[i] == LowerChar(s[i])
  {
    seq(|s|, i requires 0 <= i < |s| => LowerChar(s[i]))
  }

  function ToUpper(s: string): (r: string)
    ensures |r| == |s|
    ensures forall i :: 0 <= i < |s| ==> r[i] == UpperChar(s[i])
  {
    seq(|s|, i requires 0 <= i < |s| => UpperChar(s[i]))
  }

  /** Lower-casing forgets whether a name was upper-cased first, and the other way round. */
  lemma CaseMappingsAbsorb(s: string)
    ensures ToLower(ToUpper(s)) == ToLower(s)
    ensures ToUpper(ToLower(s)) == ToUpper(s)
    ensures ToLower(ToLower(s)) == ToLower(s)
    ensures ToUpper(ToUpper(s)) == ToUpper(s)
  {
  }

  /** A string with no lower-case letter is its own upper-case form. */
  lemma UpperOfUpperCase(s: string)
    requires forall i :: 0 <= i < |s| ==> !('a' <= s[i] <= 'z')
    ensures ToUpper(s) == s
  {
  }

  /** Upper-casing keeps every character at or below U+0020 and moves no
      other character there, so it commutes with trimming. */
  lemma {:induction false} TrimStartOfUpper(s: string)
    ensures TrimStart(ToUpper(s)) == ToUpper(TrimStart(s))
  {
    if |s| > 0 {
      var u := ToUpper(s);
      if s[0] as int <= 0x20 {
        assert u[1..] == ToUpper(s[1..]);
        TrimStartOfUpper(s[1..]);
      } else {
        assert u[0] as int > 0x20;
      }
    }
  }

  lemma {:induction false} TrimEndOfUpper(s: string)
    ensures TrimEnd(ToUpper(s)) == ToUpper(TrimEnd(s))
  {
    if |s| > 0 {
      var u := ToUpper(s);
      if s[|s| - 1] as int <= 0x20 {
        assert u[..|u| - 1] == ToUpper(s[..|s| - 1]);
        TrimEndOfUpper(s[..|s| - 1]);
      } else {
        assert u[|u| - 1] as int > 0x20;
      }
    }
  }

  lemma TrimOfUpper(s: string)
    ensures Trim(ToUpper(s)) == ToUpper(Trim(s))
  {
    TrimStartOfUpper(s);
    TrimEndOfUpper(TrimStart(s));
  }

  // ---------------------------------------------------------------------------
  // Decimal text of integers
  // ---------------------------------------------------------------------------

  predicate IsDigit(c: char) {
    '0' <= c <= '9'
  }

  predicate AllDigits(s: string) {
    forall i :: 0 <= i < |s| ==> IsDigit(s[i])
  }

  function DigitValue(c: char): nat
    requires IsDigit(c)
  {
    c as int - '0' as int
  }

  function DigitChar(d: nat): (c: char)
    requires d < 10
    ensures IsDigit(c) && DigitValue(c) == d
  {
    ('0' as int + d) as char
  }

  /** The value of a string of decimal digits, most significant first. */
  function DigitsValue(s: string): nat
    requires AllDigits(s)
  {
    if |s| == 0 then 0 else 10 * DigitsValue(s[..|s| - 1]) + DigitValue(s[|s| - 1])
  }

  /** Long.toString for a non-negative value: no sign, no leading zero. */
  function NatToDecimal(n: nat): string
  {
    if n < 10 then [DigitChar(n)] else NatToDecimal(n / 10) + [DigitChar(n % 10)]
  }

  /** Long.toString / Integer.toString. */
  function IntToDecimal(n: int): string {
    if n < 0 then "-" + NatToDecimal(-n) else NatToDecimal(n)
  }

  /** Integer.parseInt (with lo, hi the int range) and Long.parseLong (the long
      range): an optional sign, then at least one digit, and a value in range;
      None stands for the NumberFormatException. */
  function ParseDecimal(s: string, lo: int, hi: int): (r: Option<int>)
    ensures r.Some? ==> lo <= r.value <= hi
  {
    if |s| == 0 then None
    else
      var digits := if s[0] == '-' || s[0] == '+' then s[1..] else s;
      if |digits| == 0 || !AllDigits(digits) then None
      else
        var m: int := DigitsValue(digits);
        var v := if s[0] == '-' then -m else m;
        if lo <= v <= hi then Some(v) else None
  }

  lemma {:induction false} NatToDecimalIsDigits(n: nat)
    ensures |NatToDecimal(n)| > 0
    ensures AllDigits(NatToDecimal(n))
    ensures DigitsValue(NatToDecimal(n)) == n
  {
    if n >= 10 {
      NatToDecimalIsDigits(n / 10);
      var s := NatToDecimal(n);
      assert s[..|s| - 1] == NatToDecimal(n / 10);
      assert s[|s| - 1] == DigitChar(n % 10);
    }
  }

  /** Parsing the decimal text of a value in range gives the value back. */
  lemma DecimalRoundTrip(n: int, lo: int, hi: int)
    requires lo <= n <= hi
    ensures ParseDecimal(IntToDecimal(n), lo, hi) == Some(n)
  {
    var s := IntToDecimal(n);
    if n < 0 {
      NatToDecimalIsDigits(-n);
      assert s[0] == '-';
      assert s[1..] == NatToDecimal(-n);
    } else {
      NatToDecimalIsDigits(n);
      assert IsDigit(s[0]);
    }
  }
}
