/** Digits and numerals shared by the address printer and the address parser:
    the digit tables of jni/compat/inet_pton.c and the "%x" and "%u" conversions
    of jni/compat/inet_ntop.c. */
module InetDigits {
  type Byte = b: int | 0 <= b < 256

  predicate IsDec(c: char) { '0' <= c <= '9' }

  /** The union of the two 16-character tables: hexadecimal digits in either case. */
  predicate IsHex(c: char) { IsDec(c) || 'a' <= c <= 'f' || 'A' <= c <= 'F' }

  /** The index of `c` in the table that holds it. */
  function DigitValue(c: char): (v: int)
    requires IsHex(c)
    ensures 0 <= v < 16 && (IsDec(c) ==> v < 10)
  {
    if IsDec(c) then c as int - '0' as int
    else if 'a' <= c <= 'f' then c as int - 'a' as int + 10
    else c as int - 'A' as int + 10
  }

  function DigitChar(v: int): (c: char)
    requires 0 <= v < 16
    ensures IsHex(c) && DigitValue(c) == v && (v < 10 ==> IsDec(c)) && !('A' <= c <= 'F')
  {
    if v < 10 then '0' + v as char else 'a' + (v - 10) as char
  }

  predicate AllDec(s: string) { forall i :: 0 <= i < |s| ==> IsDec(s[i]) }

  predicate AllHex(s: string) { forall i :: 0 <= i < |s| ==> IsHex(s[i]) }

  /** The two bases in use; a product with a known factor stays linear. */
  datatype Base = Ten | Sixteen {
    function Times(v: int): (r: int) { if Ten? then 10 * v else 16 * v }

    function Size(): (n: int) { if Ten? then 10 else 16 }
  }

  /** The number written by the digits of `s` in the given base. */
  function Value(s: string, base: Base): (v: int)
    requires AllHex(s)
    ensures v >= 0
  {
    if s == "" then 0
    else base.Times(Value(s[..|s| - 1], base)) + DigitValue(s[|s| - 1])
  }

  function Dec(s: string): (v: int)
    requires AllHex(s)
    ensures v >= 0
  { Value(s, Ten) }

  function Hex(s: string): (v: int)
    requires AllHex(s)
    ensures v >= 0
  { Value(s, Sixteen) }

  /** The shortest numeral for `n`, in lower case; "0" for zero. */
  function Numeral(n: nat, base: Base): (s: string)
    ensures |s| >= 1 && AllHex(s) && (base.Ten? ==> AllDec(s))
  {
    if n < base.Size() then [DigitChar(n)]
    else if base.Ten? then Numeral(n / 10, base) + [DigitChar(n % 10)]
    else Numeral(n / 16, base) + [DigitChar(n % 16)]
  }

  lemma ValueAppend(s: string, c: char, base: Base)
    requires AllHex(s) && IsHex(c)
    ensures AllHex(s + [c]) && Value(s + [c], base) == base.Times(Value(s, base)) + DigitValue(c)
  {
    assert (s + [c])[..|s|] == s;
  }

  /** Reading a printed numeral back gives the number. */
  lemma {:induction false} NumeralValue(n: nat, base: Base)
    ensures Value(Numeral(n, base), base) == n
  {
    if n < base.Size() {
      assert [DigitChar(n)][..0] == "";
    } else if base.Ten? {
      NumeralValue(n / 10, base);
      ValueAppend(Numeral(n / 10, base), DigitChar(n % 10), base);
    } else {
      NumeralValue(n / 16, base);
      ValueAppend(Numeral(n / 16, base), DigitChar(n % 16), base);
    }
  }

  /** The numeral has no leading zero, except that of zero itself. */
  lemma {:induction false} NumeralShortest(n: nat, base: Base)
    ensures if n == 0 then Numeral(n, base) == "0" else Numeral(n, base)[0] != '0'
  {
    if n >= base.Size() {
      if base.Ten? { NumeralShortest(n / 10, base); } else { NumeralShortest(n / 16, base); }
    }
  }

  /** A 16-bit word prints with one to four hexadecimal digits. */
  lemma HexNumeralWidth(n: nat)
    requires n < 0x10000
    ensures |Numeral(n, Sixteen)| <= 4
  {
    if n >= 16 { assert |Numeral(n, Sixteen)| == |Numeral(n / 16, Sixteen)| + 1; }
    if n >= 256 {
      var m := n / 16 / 16;
      assert |Numeral(n / 16, Sixteen)| == |Numeral(m, Sixteen)| + 1;
      if m >= 16 { assert |Numeral(m, Sixteen)| == |Numeral(m / 16, Sixteen)| + 1; }
    }
  }

  /** A byte prints with one to three decimal digits. */
  lemma DecNumeralWidth(n: nat)
    requires n < 256
    ensures |Numeral(n, Ten)| <= 3
  {
    if n >= 10 { assert |Numeral(n, Ten)| == |Numeral(n / 10, Ten)| + 1; }
    if n >= 100 { assert |Numeral(n / 10, Ten)| == |Numeral(n / 10 / 10, Ten)| + 1; }
  }

  /** More digits never make a smaller number, so a bound on the whole numeral
      bounds every prefix that the parsers test on the way. */
  lemma {:induction false} ValuePrefix(s: string, t: string, base: Base)
    requires AllHex(s + t)
    ensures AllHex(s) && Value(s, base) <= Value(s + t, base)
  {
    assert forall i :: 0 <= i < |s| ==> s[i] == (s + t)[i];
    if t == "" {
      assert s + t == s;
    } else {
      var u := t[..|t| - 1];
      assert (s + t)[..|s + t| - 1] == s + u;
      assert AllHex(s + u) by { assert forall i :: 0 <= i < |s + u| ==> (s + u)[i] == (s + t)[i]; }
      ValuePrefix(s, u, base);
    }
  }

  /** A decimal octet, read as hexadecimal, still fits a 16-bit group; the IPv6
      scanner reads the first octet of an embedded IPv4 address that way. */
  lemma {:induction false} DecAsHex(s: string)
    requires AllDec(s) && Dec(s) <= 999
    ensures AllHex(s)
    ensures Hex(s) <= (if Dec(s) < 10 then 9 else if Dec(s) < 100 then 0x99 else 0x999)
  {
    if s != "" {
      DecAsHex(s[..|s| - 1]);
    }
  }
}
