/** Hexadecimal text of a non-negative integer, as Python's "%02X" format
    produces it (bedit.py's rep_data), and a parser that reads such text back. */
module Hex {

  datatype Option<T> = None | Some(value: T)

  /** The upper-case hexadecimal digit for a value below 16. */
  function HexChar(d: nat): (c: char)
    requires d < 16
    ensures DigitValue(c) == Some(d)
  {
    if d < 10 then ('0' as int + d) as char else ('A' as int + (d - 10)) as char
  }

  /** The value of an upper-case hexadecimal digit, or None for any other character. */
  function DigitValue(c: char): (r: Option<nat>)
    ensures r.Some? ==> r.value < 16
  {
    if '0' <= c <= '9' then Some(c as int - '0' as int)
    else if 'A' <= c <= 'F' then Some(c as int - 'A' as int + 10)
    else None
  }

  predicate IsHexDigit(c: char) {
    DigitValue(c).Some?
  }

  /** The shortest upper-case hexadecimal numeral of n ("0" for zero). */
  function HexDigits(n: nat): (r: string)
    decreases n
    ensures 1 <= |r|
    ensures |r| == 1 <==> n < 16
    ensures forall i :: 0 <= i < |r| ==> IsHexDigit(r[i])
    ensures n > 0 ==> r[0] != '0'
  {
    if n < 16 then [HexChar(n)] else HexDigits(n / 16) + [HexChar(n % 16)]
  }

  /** k zero characters. */
  function Zeros(k: nat): (r: string)
    ensures |r| == k
    ensures forall i :: 0 <= i < k ==> r[i] == '0'
  {
    seq(k, _ => '0')
  }

  /** s padded on the left with '0' up to at least `width` characters. */
  function ZeroPad(s: string, width: nat): (r: string)
    ensures |r| == if |s| < width then width else |s|
    ensures r[|r| - |s|..] == s
    ensures forall i :: 0 <= i < |r| - |s| ==> r[i] == '0'
  {
    if |s| < width then Zeros(width - |s|) + s else s
  }

  /** rep_data: "%02X" % v, the upper-case hexadecimal numeral of v,
      zero-padded to at least two characters. */
  function RepData(v: nat): (r: string)
    ensures 2 <= |r|
    ensures forall i :: 0 <= i < |r| ==> IsHexDigit(r[i])
  {
    ZeroPad(HexDigits(v), 2)
  }

  /** Reads a string of upper-case hexadecimal digits back to its value
      (the empty string reads as 0); None if any character is not a digit. */
  function ParseHex(s: string): (r: Option<nat>)
    decreases |s|
  {
    if s == [] then Some(0)
    else
      match (ParseHex(s[..|s| - 1]), DigitValue(s[|s| - 1]))
      case (Some(h), Some(d)) => Some(16 * h + d)
      case _ => None
  }

  lemma {:induction false} ParseHexDigits(n: nat)
    ensures ParseHex(HexDigits(n)) == Some(n)
    decreases n
  {
    var r := HexDigits(n);
    if n < 16 {
      assert r[..0] == [];
    } else {
      var h := HexDigits(n / 16);
      assert r == h + [HexChar(n % 16)];
      assert r[..|r| - 1] == h;
      ParseHexDigits(n / 16);
    }
  }

  lemma {:induction false} ParseZeros(k: nat)
    ensures ParseHex(Zeros(k)) == Some(0)
  {
    if k > 0 {
      assert Zeros(k)[..k - 1] == Zeros(k - 1);
      ParseZeros(k - 1);
    }
  }

  /** Leading zeros do not change the value a numeral reads as. */
  lemma {:induction false} ParseLeadingZeros(k: nat, s: string)
    ensures ParseHex(Zeros(k) + s) == ParseHex(s)
    decreases |s|
  {
    if s == [] {
      assert Zeros(k) + s == Zeros(k);
      ParseZeros(k);
    } else {
      var t := Zeros(k) + s;
      assert t[..|t| - 1] == Zeros(k) + s[..|s| - 1];
      assert t[|t| - 1] == s[|s| - 1];
      ParseLeadingZeros(k, s[..|s| - 1]);
    }
  }

  /** The text rep_data produces reads back as the value it was made from. */
  lemma RepDataRoundTrip(v: nat)
    ensures ParseHex(RepData(v)) == Some(v)
  {
    var h := HexDigits(v);
    ParseHexDigits(v);
    if |h| < 2 {
      ParseLeadingZeros(2 - |h|, h);
    }
  }

  /** Distinct values never share a rendering. */
  lemma RepDataInjective(a: nat, b: nat)
    ensures RepData(a) == RepData(b) <==> a == b
  {
    RepDataRoundTrip(a);
    RepDataRoundTrip(b);
  }

  /** For a byte value the rendering is exactly two digits: the high nibble
      then the low nibble. */
  lemma RepDataByte(v: nat)
    requires v < 256
    ensures RepData(v) == [HexChar(v / 16), HexChar(v % 16)]
  {
    if v < 16 {
      assert HexChar(0) == '0';
    } else {
      assert HexDigits(v / 16) == [HexChar(v / 16)];
    }
  }

  /** "%02X" yields exactly two characters precisely for the values 0..255. */
  lemma RepDataLength(v: nat)
    ensures |RepData(v)| == 2 <==> v < 256
  {
    if v < 256 {
      RepDataByte(v);
    } else {
      assert |HexDigits(v / 16)| >= 2;
    }
  }
}
