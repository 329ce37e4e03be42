/** Hexadecimal text and the bytes it stands for: the reference definitions
    every hex loop of the three applications is proved against. */
module Hex {

  /** The unsigned value (b & 0xFF) of a Java byte. */
  type Byte = b: int | 0 <= b < 256

  /** The digit table of the encoders (hexArray, hex). */
  const HexDigits: string := "0123456789ABCDEF"

  predicate IsHexChar(c: char) {
    '0' <= c <= '9' || 'a' <= c <= 'f' || 'A' <= c <= 'F'
  }

  predicate IsUpperHexChar(c: char) {
    '0' <= c <= '9' || 'A' <= c <= 'F'
  }

  predicate IsHexString(s: string) {
    forall i :: 0 <= i < |s| ==> IsHexChar(s[i])
  }

  /** Character.digit(c, 16) restricted to ASCII: the value of a hex digit
      in either case, and -1 for any other character. */
  function DigitValue(c: char): (d: int)
    ensures -1 <= d < 16
    ensures d >= 0 <==> IsHexChar(c)
  {
    if '0' <= c <= '9' then c as int - '0' as int
    else if 'a' <= c <= 'f' then c as int - 'a' as int + 10
    else if 'A' <= c <= 'F' then c as int - 'A' as int + 10
    else -1
  }

  /** The hex digit of a nibble; reading it back gives the nibble. */
  function HexDigit(n: int): (c: char)
    requires 0 <= n < 16
    ensures IsUpperHexChar(c)
    ensures DigitValue(c) == n
  {
    if n < 10 then ('0' as int + n) as char else ('A' as int + n - 10) as char
  }

  /** The encoders' digit table holds exactly these digits. */
  lemma HexDigitsTable(n: int)
    requires 0 <= n < 16
    ensures HexDigits[n] == HexDigit(n)
  {
    assert HexDigits == ['0', '1', '2', '3', '4', '5', '6', '7', '8', '9', 'A', 'B', 'C', 'D', 'E', 'F'];
  }

  /** The two entries of the digit table that make up %02X of a byte. */
  lemma Format02XFromTable(v: Byte)
    ensures Format02X(v) == [HexDigits[v / 16], HexDigits[v % 16]]
  {
    HexDigitsTable(v / 16);
    HexDigitsTable(v % 16);
  }

  /** Reading an upper-case hex digit and writing it back gives it again. */
  lemma HexDigitOfValue(c: char)
    requires IsUpperHexChar(c)
    ensures HexDigit(DigitValue(c)) == c
  {
  }

  lemma NibbleSplit(hi: int, lo: int)
    requires 0 <= hi < 16 && 0 <= lo < 16
    ensures (16 * hi + lo) / 16 == hi && (16 * hi + lo) % 16 == lo
  {
  }

  /** String.format("%02X", n) for 0 <= n < 256: two upper-case hex digits,
      most significant nibble first. */
  function Format02X(n: Byte): (s: string)
    ensures |s| == 2 && IsUpperHexChar(s[0]) && IsUpperHexChar(s[1])
    ensures 16 * DigitValue(s[0]) + DigitValue(s[1]) == n
  {
    [HexDigit(n / 16), HexDigit(n % 16)]
  }

  /** The hex text of a byte sequence, two digits per byte, in order. */
  function ToHex(bs: seq<Byte>): (s: string)
    ensures |s| == 2 * |bs|
  {
    if bs == [] then [] else ToHex(bs[..|bs| - 1]) + Format02X(bs[|bs| - 1])
  }

  /** The bytes of an even-length hex text, two characters per byte. */
  function FromHex(s: string): (bs: seq<Byte>)
    requires |s| % 2 == 0 && IsHexString(s)
    ensures |bs| == |s| / 2
  {
    if s == [] then []
    else FromHex(s[..|s| - 2]) + [16 * DigitValue(s[|s| - 2]) + DigitValue(s[|s| - 1])]
  }

  /** Two texts of the same even length that agree on every pair of
      characters are equal. */
  lemma PairwiseEqual(t: string, s: string)
    requires |t| == |s| && |s| % 2 == 0
    requires forall k :: 0 <= k < |s| / 2 ==> t[2 * k] == s[2 * k] && t[2 * k + 1] == s[2 * k + 1]
    ensures t == s
  {
    forall i | 0 <= i < |s| ensures t[i] == s[i] {
      var k := i / 2;
      if i % 2 == 0 {
        assert i == 2 * k;
      } else {
        assert i == 2 * k + 1;
      }
    }
  }

  lemma {:induction false} ToHexSnoc(bs: seq<Byte>, b: Byte)
    ensures ToHex(bs + [b]) == ToHex(bs) + Format02X(b)
  {
    assert (bs + [b])[..|bs|] == bs;
  }

  lemma HexAppend(a: string, b: string)
    requires IsHexString(a) && IsHexString(b)
    ensures IsHexString(a + b)
  {
    forall i | 0 <= i < |a + b| ensures IsHexChar((a + b)[i]) {
      if i < |a| { assert (a + b)[i] == a[i]; } else { assert (a + b)[i] == b[i - |a|]; }
    }
  }

  /** Characters 2j and 2j+1 of the hex text are the high and the low
      nibble of byte j. */
  lemma {:induction false} ToHexAt(bs: seq<Byte>, j: int)
    requires 0 <= j < |bs|
    ensures ToHex(bs)[2 * j] == HexDigit(bs[j] / 16)
    ensures ToHex(bs)[2 * j + 1] == HexDigit(bs[j] % 16)
  {
    var init := bs[..|bs| - 1];
    if j < |bs| - 1 {
      ToHexAt(init, j);
    }
  }

  /** The encoder emits upper-case hex digits only. */
  lemma {:induction false} ToHexIsUpperHex(bs: seq<Byte>)
    ensures forall i :: 0 <= i < |ToHex(bs)| ==> IsUpperHexChar(ToHex(bs)[i])
    ensures IsHexString(ToHex(bs))
  {
    if bs != [] {
      ToHexIsUpperHex(bs[..|bs| - 1]);
    }
  }

  lemma {:induction false} FromHexSnoc(s: string)
    requires |s| % 2 == 0 && IsHexString(s) && s != []
    ensures IsHexString(s[..|s| - 2])
    ensures FromHex(s) == FromHex(s[..|s| - 2]) + [16 * DigitValue(s[|s| - 2]) + DigitValue(s[|s| - 1])]
  {
  }

  /** Byte k is read from characters 2k (high nibble) and 2k+1 (low nibble),
      in either case, as Character.digit reads them. */
  lemma {:induction false} FromHexAt(s: string, k: int)
    requires |s| % 2 == 0 && IsHexString(s) && 0 <= k < |s| / 2
    ensures FromHex(s)[k] == 16 * DigitValue(s[2 * k]) + DigitValue(s[2 * k + 1])
  {
    FromHexSnoc(s);
    var init := s[..|s| - 2];
    if k < |init| / 2 {
      FromHexAt(init, k);
      assert init[2 * k] == s[2 * k] && init[2 * k + 1] == s[2 * k + 1];
    }
  }

}
