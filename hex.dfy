/** Hexadecimal digits, bytes, and the "%02X" rendering shared by the file codec and the wire protocol. */
module Hex {
  /** An element of a Python bytearray. */
  type byte = x: int | 0 <= x < 256

  /** The class [a-fA-F0-9] of importHex's pattern, and what int(..., 16) accepts as a digit. */
  predicate IsHexDigit(c: char) {
    '0' <= c <= '9' || 'a' <= c <= 'f' || 'A' <= c <= 'F'
  }

  /** A digit "%X" produces. */
  predicate IsUpperHexDigit(c: char) {
    '0' <= c <= '9' || 'A' <= c <= 'F'
  }

  predicate AllHex(s: string) {
    forall i :: 0 <= i < |s| ==> IsHexDigit(s[i])
  }

  predicate AllUpperHex(s: string) {
    forall i :: 0 <= i < |s| ==> IsUpperHexDigit(s[i])
  }

  function DigitValue(c: char): (v: nat)
    requires IsHexDigit(c)
    ensures v < 16
  {
    if '0' <= c <= '9' then c as int - '0' as int
    else if 'a' <= c <= 'f' then c as int - 'a' as int + 10
    else c as int - 'A' as int + 10
  }

  function DigitChar(v: nat): (c: char)
    requires v < 16
    ensures IsUpperHexDigit(c) && DigitValue(c) == v
  {
    if v < 10 then ('0' as int + v) as char else ('A' as int + v - 10) as char
  }

  /** Two consecutive hex digits: one match of importHex's pattern. */
  predicate IsPair(p: string) {
    |p| == 2 && IsHexDigit(p[0]) && IsHexDigit(p[1])
  }

  /** One match of importHex's pattern, as the text it matched. */
  type PairText = p: string | IsPair(p) witness "00"

  /** string.atoi(pair, 16). */
  function PairValue(p: PairText): byte
  {
    16 * DigitValue(p[0]) + DigitValue(p[1])
  }

  /** "%02X" % b: exactly two upper-case digits that read back as b. */
  function HexPair(b: byte): (s: string)
    ensures IsPair(s) && IsUpperHexDigit(s[0]) && IsUpperHexDigit(s[1]) && PairValue(s) == b
  {
    [DigitChar(b / 16), DigitChar(b % 16)]
  }

  /** The bytes rendered "%02X" one after the other, with nothing between them. */
  function HexString(data: seq<byte>): (s: string)
    ensures |s| == 2 * |data|
  {
    if data == [] then "" else HexPair(data[0]) + HexString(data[1..])
  }

  /** An empty slice renders as nothing. */
  lemma HexStringEmpty(data: seq<byte>, j: nat)
    requires j <= |data|
    ensures HexString(data[j..j]) == ""
  {
    assert data[j..j] == [];
  }

  /** A rendering holds upper-case hex digits only, so in particular no "\n". */
  lemma {:induction false} HexStringDigits(data: seq<byte>)
    ensures AllUpperHex(HexString(data))
    ensures forall i :: 0 <= i < |HexString(data)| ==> HexString(data)[i] != '\n'
    decreases |data|
  {
    if data != [] {
      HexStringDigits(data[1..]);
      var s := HexString(data);
      assert s == HexPair(data[0]) + HexString(data[1..]);
      assert forall i :: 2 <= i < |s| ==> s[i] == HexString(data[1..])[i - 2];
    }
  }

  lemma {:induction false} HexStringAppend(a: seq<byte>, b: seq<byte>)
    ensures HexString(a + b) == HexString(a) + HexString(b)
    decreases |a|
  {
    if a == [] {
      assert a + b == b;
    } else {
      assert (a + b)[1..] == a[1..] + b;
      HexStringAppend(a[1..], b);
    }
  }

  /** Byte i of the data is at characters 2i and 2i+1 of its rendering. */
  lemma {:induction false} HexStringAt(data: seq<byte>, i: nat)
    requires i < |data|
    ensures HexString(data)[2 * i..2 * i + 2] == HexPair(data[i])
    decreases i
  {
    if i > 0 {
      HexStringAt(data[1..], i - 1);
      assert HexString(data) == HexPair(data[0]) + HexString(data[1..]);
    }
  }

  /** The value of a string of hex digits, most significant first (int(s, 16) without sign). */
  function HexValue(s: string): nat
    requires AllHex(s)
  {
    if s == [] then 0 else 16 * HexValue(s[..|s| - 1]) + DigitValue(s[|s| - 1])
  }

  /** "%X" % n: the shortest upper-case rendering of n. */
  function HexDigits(n: nat): (s: string)
    ensures 0 < |s| && AllUpperHex(s)
    ensures HexValue(s) == n
    decreases n
  {
    if n < 16 then [DigitChar(n)]
    else
      var s := HexDigits(n / 16) + [DigitChar(n % 16)];
      assert s[..|s| - 1] == HexDigits(n / 16);
      s
  }

  function Pow16(k: nat): nat {
    if k == 0 then 1 else 16 * Pow16(k - 1)
  }

  /** A value of at least 16^k needs more than k digits. */
  lemma {:induction false} HexDigitsAtLeast(n: nat, k: nat)
    requires Pow16(k) <= n
    ensures |HexDigits(n)| > k
    decreases k
  {
    if k > 0 {
      HexDigitsAtLeast(n / 16, k - 1);
    }
  }

  lemma {:induction false} HexDigitsLength(n: nat, k: nat)
    requires 0 < k && n < Pow16(k)
    ensures |HexDigits(n)| <= k
    decreases k
  {
    if n >= 16 {
      assert k > 1;
      HexDigitsLength(n / 16, k - 1);
    }
  }

  /** Left-pads with '0' up to width w; "%0wX" once the digits are known. */
  function ZeroPad(s: string, w: nat): (r: string)
    requires AllUpperHex(s)
    ensures AllUpperHex(r)
    ensures |r| == if |s| >= w then |s| else w
    ensures HexValue(r) == HexValue(s)
    decreases w - |s|
  {
    if |s| >= w then s
    else
      LeadingZero(s);
      ZeroPad("0" + s, w)
  }

  lemma {:induction false} LeadingZero(s: string)
    requires AllHex(s)
    ensures AllHex("0" + s) && HexValue("0" + s) == HexValue(s)
    decreases |s|
  {
    var t := "0" + s;
    if s != [] {
      assert t[..|t| - 1] == "0" + s[..|s| - 1];
      LeadingZero(s[..|s| - 1]);
    } else {
      assert t[..|t| - 1] == [];
    }
  }
}
