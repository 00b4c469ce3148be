/** Decimal text for byte counts: the record store keeps a file's size as the
    decimal string of its length, and reads it back with
    `strconv.ParseInt(s, 10, 64)`. */
module Decimal {
  import opened Wrappers

  const MaxInt64: int := 0x7fff_ffff_ffff_ffff
  const MinInt64: int := -0x8000_0000_0000_0000

  predicate IsDigit(c: char) { '0' <= c <= '9' }

  function DigitChar(d: nat): (c: char)
    requires d < 10
    ensures IsDigit(c)
  {
    ('0' as int + d) as char
  }

  /** The decimal form of `n`, without leading zeros ("0" for zero). */
  function NatToString(n: nat): (s: string)
    ensures |s| >= 1 && forall i :: 0 <= i < |s| ==> IsDigit(s[i])
    ensures |s| > 1 ==> s[0] != '0'
  {
    if n < 10 then [DigitChar(n)] else NatToString(n / 10) + [DigitChar(n % 10)]
  }

  /** The number that a string of decimal digits denotes. */
  function DigitsValue(s: string): nat
    requires forall i :: 0 <= i < |s| ==> IsDigit(s[i])
  {
    if s == [] then 0
    else
      assert IsDigit(s[|s| - 1]);
      DigitsValue(s[..|s| - 1]) * 10 + (s[|s| - 1] as int - '0' as int)
  }

  lemma {:induction false} DigitsOfNat(n: nat)
    ensures DigitsValue(NatToString(n)) == n
  {
    if n >= 10 {
      var s := NatToString(n);
      assert s[..|s| - 1] == NatToString(n / 10);
      DigitsOfNat(n / 10);
    }
  }

  predicate AllDigits(s: string) {
    forall i :: 0 <= i < |s| ==> IsDigit(s[i])
  }

  /** Reading one more digit multiplies the value so far by ten and adds it. */
  lemma PrefixStep(d: string, i: nat)
    requires i < |d| && AllDigits(d[..i]) && IsDigit(d[i])
    ensures AllDigits(d[..i + 1])
    ensures DigitsValue(d[..i + 1]) == DigitsValue(d[..i]) * 10 + (d[i] as int - '0' as int)
  {
    assert d[..i + 1][..i] == d[..i];
    assert d[..i + 1][i] == d[i];
  }

  /** A prefix of a digit string denotes at most what the whole string does. */
  lemma {:induction false} PrefixLe(d: string, i: nat)
    requires i <= |d|
    ensures AllDigits(d) ==> AllDigits(d[..i]) && DigitsValue(d[..i]) <= DigitsValue(d)
    decreases |d|
  {
    if AllDigits(d) {
      if i == |d| {
        assert d[..i] == d;
      } else {
        var init := d[..|d| - 1];
        PrefixLe(init, i);
        assert init[..i] == d[..i];
      }
    }
  }

  const MaxUint64: int := 0xffff_ffff_ffff_ffff

  /** What reading the digits of strconv.ParseUint(d, 10, 64) comes to. */
  datatype Scan = Value(n: nat) | BadSyntax | OutOfRange

  /** The digit loop of strconv.ParseUint from position `i`, the digits
      before `i` read and their value within 64 unsigned bits: a character
      that is not a digit is a syntax error and a digit that takes the value
      past 2^64 - 1 is a range error, whichever comes first. (The source's
      two overflow tests, before the multiplication and after the addition,
      together say exactly that the new value is too large.) */
  function ScanFrom(d: string, i: nat): (r: Scan)
    requires i <= |d| && AllDigits(d[..i]) && DigitsValue(d[..i]) <= MaxUint64
    ensures r.Value? <==> AllDigits(d) && DigitsValue(d) <= MaxUint64
    ensures r.Value? ==> AllDigits(d) && r.n == DigitsValue(d)
    ensures r.BadSyntax? ==> !AllDigits(d)
    decreases |d| - i
  {
    if i == |d| then
      assert d[..i] == d;
      Value(DigitsValue(d))
    else if !IsDigit(d[i]) then BadSyntax
    else
      PrefixStep(d, i);
      PrefixLe(d, i + 1);
      if DigitsValue(d[..i + 1]) > MaxUint64 then OutOfRange
      else ScanFrom(d, i + 1)
  }

  /** The first digit that overflows gives the range error, whatever follows. */
  lemma {:induction false} ScanOverflowFirst(d: string, i: nat, j: nat)
    requires i <= j < |d| && AllDigits(d[..i]) && DigitsValue(d[..i]) <= MaxUint64
    requires AllDigits(d[..j + 1]) && DigitsValue(d[..j + 1]) > MaxUint64
    ensures ScanFrom(d, i) == OutOfRange
    decreases j - i
  {
    assert d[..j + 1][i] == d[i];
    PrefixStep(d, i);
    if DigitsValue(d[..i + 1]) <= MaxUint64 {
      ScanOverflowFirst(d, i + 1, j);
    }
  }

  /** The first character that is not a digit gives the syntax error when
      the digits before it fit. */
  lemma {:induction false} ScanBadCharFirst(d: string, i: nat, j: nat)
    requires i <= j < |d| && AllDigits(d[..i]) && DigitsValue(d[..i]) <= MaxUint64
    requires !IsDigit(d[j]) && AllDigits(d[..j]) && DigitsValue(d[..j]) <= MaxUint64
    ensures ScanFrom(d, i) == BadSyntax
    decreases j - i
  {
    if i < j {
      assert d[..j][i] == d[i];
      PrefixStep(d, i);
      PrefixLe(d[..j], i + 1);
      assert d[..j][..i + 1] == d[..i + 1];
      ScanBadCharFirst(d, i + 1, j);
    }
  }

  /** A character strconv.Quote writes as it is: printable ASCII, and
      anything beyond ASCII. */
  predicate Printable(c: char) {
    0x20 <= c as int < 0x7f || c as int >= 0x80
  }

  function HexDigit(d: nat): (c: char)
    requires d < 16
    ensures Printable(c)
  {
    "0123456789abcdef"[d]
  }

  /** strconv.Quote's escape for one character. */
  function EscapeChar(c: char): (r: string)
    ensures r != [] && forall i :: 0 <= i < |r| ==> Printable(r[i])
    ensures Printable(c) && c != '"' && c != '\\' ==> r == [c]
    ensures !Printable(c) || c == '"' || c == '\\' ==> r[0] == '\\'
  {
    if c == '"' || c == '\\' then ['\\', c]
    else if Printable(c) then [c]
    else if c as int == 7 then "\\a"
    else if c as int == 8 then "\\b"
    else if c as int == 12 then "\\f"
    else if c as int == 10 then "\\n"
    else if c as int == 13 then "\\r"
    else if c as int == 9 then "\\t"
    else if c as int == 11 then "\\v"
    else "\\x" + [HexDigit(c as int / 16), HexDigit(c as int % 16)]
  }

  function EscapeAll(s: string): (r: string)
    ensures forall i :: 0 <= i < |r| ==> Printable(r[i])
    ensures (forall i :: 0 <= i < |s| ==> Printable(s[i]) && s[i] != '"' && s[i] != '\\') ==> r == s
  {
    if s == [] then [] else EscapeChar(s[0]) + EscapeAll(s[1..])
  }

  /** strconv.Quote: the text between double quotes, with quotes,
      backslashes and control characters escaped. */
  function Quote(s: string): (r: string)
    ensures |r| >= |s| + 2 && r[0] == '"' && r[|r| - 1] == '"'
    ensures forall i :: 0 <= i < |r| ==> Printable(r[i])
    ensures (forall i :: 0 <= i < |s| ==> Printable(s[i]) && s[i] != '"' && s[i] != '\\') ==> r == "\"" + s + "\""
  {
    EscapeLength(s);
    "\"" + EscapeAll(s) + "\""
  }

  lemma {:induction false} EscapeLength(s: string)
    ensures |EscapeAll(s)| >= |s|
  {
    if s != [] {
      EscapeLength(s[1..]);
    }
  }

  /** The text after one leading sign. */
  function Unsigned(s: string): (r: string)
    ensures HasSign(s) ==> s == [s[0]] + r
    ensures !HasSign(s) ==> r == s
  {
    if HasSign(s) then s[1..] else s
  }

  predicate HasSign(s: string) { s != [] && (s[0] == '+' || s[0] == '-') }

  predicate Negative(s: string) { s != [] && s[0] == '-' }

  function SyntaxError(s: string): string {
    "strconv.ParseInt: parsing " + Quote(s) + ": invalid syntax"
  }

  function RangeError(s: string): string {
    "strconv.ParseInt: parsing " + Quote(s) + ": value out of range"
  }

  /** strconv.ParseInt(s, 10, 64): an optional sign, then at least one digit;
      the value must fit in 64 signed bits. The digits are read by the loop of
      strconv.ParseUint, so which error is reported depends on what comes
      first. */
  function ParseInt(s: string): (r: Result<int>)
    ensures r.Ok? <==>
      Unsigned(s) != [] && AllDigits(Unsigned(s)) &&
      DigitsValue(Unsigned(s)) <= (if Negative(s) then -MinInt64 else MaxInt64)
    ensures r.Ok? ==> r.value == if Negative(s) then -(DigitsValue(Unsigned(s)) as int) else DigitsValue(Unsigned(s))
    ensures r.Ok? ==> MinInt64 <= r.value <= MaxInt64
    ensures r.Err? ==> r == Err(SyntaxError(s)) || r == Err(RangeError(s))
    ensures r.Err? && Unsigned(s) != [] && AllDigits(Unsigned(s)) ==> r == Err(RangeError(s))
  {
    var digits := Unsigned(s);
    if digits == [] then Err(SyntaxError(s))
    else
      assert digits[..0] == [];
      match ScanFrom(digits, 0)
      case BadSyntax => Err(SyntaxError(s))
      case OutOfRange => Err(RangeError(s))
      case Value(n) =>
        if Negative(s) then (if n > -MinInt64 then Err(RangeError(s)) else Ok(-(n as int)))
        else (if n > MaxInt64 then Err(RangeError(s)) else Ok(n))
  }

  /** A digit that takes the value past 2^64 - 1 gives the range error even
      when a character that is not a digit comes after it. */
  lemma ParseIntOverflowFirst(s: string, j: nat)
    requires j < |Unsigned(s)|
    requires AllDigits(Unsigned(s)[..j + 1]) && DigitsValue(Unsigned(s)[..j + 1]) > MaxUint64
    ensures ParseInt(s) == Err(RangeError(s))
  {
    assert Unsigned(s)[..0] == [];
    ScanOverflowFirst(Unsigned(s), 0, j);
  }

  /** A character that is not a digit gives the syntax error when the digits
      before it fit in 64 unsigned bits. */
  lemma ParseIntBadCharFirst(s: string, j: nat)
    requires j < |Unsigned(s)| && !IsDigit(Unsigned(s)[j])
    requires AllDigits(Unsigned(s)[..j]) && DigitsValue(Unsigned(s)[..j]) <= MaxUint64
    ensures ParseInt(s) == Err(SyntaxError(s))
  {
    assert Unsigned(s)[..0] == [];
    ScanBadCharFirst(Unsigned(s), 0, j);
  }

  /** A size written by NatToString reads back as the same number. */
  lemma ParseNatToString(n: nat)
    requires n <= MaxInt64
    ensures ParseInt(NatToString(n)) == Ok(n)
  {
    DigitsOfNat(n);
    var s := NatToString(n);
    assert !HasSign(s) by { assert IsDigit(s[0]); }
  }
}
