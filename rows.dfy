/**
  Result rows as the services receive them from the store: a map from column
  name to a loosely typed value, and the lenient readers every service
  repeats (`getValue`, `toLong`, `toInt`, `toString`).

  A column value is null, a number or text; instants are not read through
  these helpers in the modelled core.
 */
module Rows {
  import opened Wrappers
  import opened JavaText

  datatype Value = Null | Num(n: int) | Text(s: string)

  type Row = map<string, Value>

  /** The outcome of a conversion: a value, or the NumberFormatException that
      Long.parseLong / Integer.parseInt throw on text that is not a number. */
  datatype Conversion<T> = Converted(value: T) | NumberFormatFailure

  const IntHalf: int := 0x8000_0000
  const LongHalf: int := 0x8000_0000_0000_0000

  /** getValue: the exact column name, then its lower-case form, then its
      upper-case form; a column present under none of them reads as null. */
  function GetValue(row: Row, key: string): (v: Value)
    ensures key in row ==> v == row[key]
    ensures key !in row && ToLower(key) in row ==> v == row[ToLower(key)]
    ensures key !in row && ToLower(key) !in row && ToUpper(key) in row ==> v == row[ToUpper(key)]
    ensures key !in row && ToLower(key) !in row && ToUpper(key) !in row ==> v == Null
  {
    if key in row then row[key]
    else if ToLower(key) in row then row[ToLower(key)]
    else if ToUpper(key) in row then row[ToUpper(key)]
    else Null
  }

  predicate LowerCaseColumns(row: Row) {
    forall c :: c in row ==> ToLower(c) == c
  }

  predicate UpperCaseColumns(row: Row) {
    forall c :: c in row ==> ToUpper(c) == c
  }

  /** With the column names a driver reports in lower case, any spelling of a
      name finds the column under its lower-case form. */
  lemma GetValueOnLowerCaseColumns(row: Row, key: string)
    requires LowerCaseColumns(row)
    ensures GetValue(row, key) == if ToLower(key) in row then row[ToLower(key)] else Null
  {
    CaseMappingsAbsorb(key);
    if key in row {
      assert ToLower(key) == key;
    }
    if ToUpper(key) in row {
      // an upper-case spelling that is a column is its own lower-case form
      assert ToLower(ToUpper(key)) == ToUpper(key);
    }
  }

  /** With the column names a driver reports in upper case (as some JDBC
      drivers do), any spelling of a name finds the column under its
      upper-case form. */
  lemma GetValueOnUpperCaseColumns(row: Row, key: string)
    requires UpperCaseColumns(row)
    ensures GetValue(row, key) == if ToUpper(key) in row then row[ToUpper(key)] else Null
  {
    CaseMappingsAbsorb(key);
    if key in row {
      assert ToUpper(key) == key;
    } else if ToLower(key) in row {
      assert ToUpper(ToLower(key)) == ToLower(key);
    }
  }

  /** Number.intValue on an integral number: its low 32 bits read as two's
      complement, the value in the int range congruent to n modulo 2^32. */
  function WrapInt(n: int): (r: int)
    ensures -IntHalf <= r < IntHalf
    ensures (r - n) % 0x1_0000_0000 == 0
    ensures -IntHalf <= n < IntHalf ==> r == n
  {
    (n + IntHalf) % 0x1_0000_0000 - IntHalf
  }

  /** Number.longValue on an integral number: its low 64 bits read as two's
      complement, the value in the long range congruent to n modulo 2^64. */
  function WrapLong(n: int): (r: int)
    ensures -LongHalf <= r < LongHalf
    ensures (r - n) % 0x1_0000_0000_0000_0000 == 0
    ensures -LongHalf <= n < LongHalf ==> r == n
  {
    (n + LongHalf) % 0x1_0000_0000_0000_0000 - LongHalf
  }

  /** toLong: null stays null, a number keeps its low 64 bits, text is parsed. */
  function ToLong(row: Row, key: string): (r: Conversion<Option<int>>)
    ensures r.Converted? && r.value.Some? ==> -LongHalf <= r.value.value < LongHalf
    ensures GetValue(row, key) == Null <==> r == Converted(None)
  {
    match GetValue(row, key)
    case Null => Converted(None)
    case Num(n) => Converted(Some(WrapLong(n)))
    case Text(s) =>
      match ParseDecimal(s, -LongHalf, LongHalf - 1)
      case Some(v) => Converted(Some(v))
      case None => NumberFormatFailure
  }

  /** toInt: null reads as 0, a number keeps its low 32 bits, text is parsed. */
  function ToInt(row: Row, key: string): (r: Conversion<int>)
    ensures r.Converted? ==> -IntHalf <= r.value < IntHalf
    ensures GetValue(row, key) == Null ==> r == Converted(0)
  {
    match GetValue(row, key)
    case Null => Converted(0)
    case Num(n) => Converted(WrapInt(n))
    case Text(s) =>
      match ParseDecimal(s, -IntHalf, IntHalf - 1)
      case Some(v) => Converted(v)
      case None => NumberFormatFailure
  }

  /** toString: null stays null, anything else is its text form. */
  function ToText(row: Row, key: string): (r: Option<string>)
    ensures r.None? <==> GetValue(row, key) == Null
  {
    match GetValue(row, key)
    case Null => None
    case Num(n) => Some(IntToDecimal(n))
    case Text(s) => Some(s)
  }

  /** A long stored as a number or as its decimal text reads back the same. */
  lemma LongReadsBack(row: Row, key: string, n: int)
    requires -LongHalf <= n < LongHalf
    requires key in row && (row[key] == Num(n) || row[key] == Text(IntToDecimal(n)))
    ensures ToLong(row, key) == Converted(Some(n))
  {
    DecimalRoundTrip(n, -LongHalf, LongHalf - 1);
  }

  /** An int stored as a number or as its decimal text reads back the same. */
  lemma IntReadsBack(row: Row, key: string, n: int)
    requires -IntHalf <= n < IntHalf
    requires key in row && (row[key] == Num(n) || row[key] == Text(IntToDecimal(n)))
    ensures ToInt(row, key) == Converted(n)
  {
    DecimalRoundTrip(n, -IntHalf, IntHalf - 1);
  }

  /** A number column and its text form give the same string. */
  lemma TextOfNumberIsDecimal(row: Row, key: string, n: int)
    requires key in row && row[key] == Num(n)
    ensures ToText(row, key) == Some(IntToDecimal(n))
  {
  }
}
