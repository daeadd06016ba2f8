/** The handful of Python string operations the loader relies on, over seq<char>. */
module Text {
  /** C isspace, which Python 2's str.strip() and int() use: space, \t, \n, \v, \f, \r. */
  predicate IsSpace(c: char) {
    c == ' ' || c == '\t' || c == '\n' || c == '\r' || c as int == 11 || c as int == 12
  }

  /** Drops leading whitespace. */
  function TrimLeft(s: string): string {
    if |s| > 0 && IsSpace(s[0]) then TrimLeft(s[1..]) else s
  }

  /** Drops trailing whitespace. */
  function TrimRight(s: string): string {
    if |s| > 0 && IsSpace(s[|s| - 1]) then TrimRight(s[..|s| - 1]) else s
  }

  /** What TrimLeft leaves is the suffix after the leading run of whitespace, and it starts with a non-space. */
  lemma {:induction false} TrimLeftSpec(s: string)
    ensures |TrimLeft(s)| <= |s| && TrimLeft(s) == s[|s| - |TrimLeft(s)|..]
    ensures |TrimLeft(s)| > 0 ==> !IsSpace(TrimLeft(s)[0])
    ensures forall i :: 0 <= i < |s| - |TrimLeft(s)| ==> IsSpace(s[i])
    decreases |s|
  {
    if |s| > 0 && IsSpace(s[0]) {
      TrimLeftSpec(s[1..]);
      assert forall i :: 1 <= i < |s| ==> s[i] == s[1..][i - 1];
    }
  }

  /** What TrimRight leaves is the prefix before the trailing run of whitespace, and it ends with a non-space. */
  lemma {:induction false} TrimRightSpec(s: string)
    ensures |TrimRight(s)| <= |s| && TrimRight(s) == s[..|TrimRight(s)|]
    ensures |TrimRight(s)| > 0 ==> !IsSpace(TrimRight(s)[|TrimRight(s)| - 1])
    ensures forall i :: |TrimRight(s)| <= i < |s| ==> IsSpace(s[i])
    decreases |s|
  {
    if |s| > 0 && IsSpace(s[|s| - 1]) {
      TrimRightSpec(s[..|s| - 1]);
    }
  }

  /** string.strip(s) and s.strip(). */
  function Strip(s: string): string {
    TrimRight(TrimLeft(s))
  }

  /** A string that neither starts nor ends with whitespace is its own strip. */
  lemma StripUnchanged(s: string)
    requires |s| > 0 && !IsSpace(s[0]) && !IsSpace(s[|s| - 1])
    ensures Strip(s) == s
  {
  }

  /** ... and stripping it with a "\n" after it gives it back. */
  lemma StripNewline(s: string)
    requires |s| > 0 && !IsSpace(s[0]) && !IsSpace(s[|s| - 1])
    ensures Strip(s + "\n") == s
  {
    var t := s + "\n";
    assert TrimLeft(t) == t;
    assert t[..|t| - 1] == s;
    assert TrimRight(t) == TrimRight(s);
  }

  /** str.lower() of Python 2 in the C locale: ASCII letters only. */
  function LowerChar(c: char): char {
    if 'A' <= c <= 'Z' then (c as int + 32) as char else c
  }

  function Lower(s: string): string {
    seq(|s|, i requires 0 <= i < |s| => LowerChar(s[i]))
  }

  predicate HasPrefix(s: string, p: string) {
    |p| <= |s| && s[..|p|] == p
  }

  /** Python's `t in s` on strings. */
  predicate Contains(s: string, t: string)
    decreases |s|
  {
    HasPrefix(s, t) || (|s| > 0 && Contains(s[1..], t))
  }

  predicate AllDecimal(s: string) {
    forall i :: 0 <= i < |s| ==> '0' <= s[i] <= '9'
  }

  function DecimalValue(s: string): nat
    requires AllDecimal(s)
  {
    if s == [] then 0 else 10 * DecimalValue(s[..|s| - 1]) + (s[|s| - 1] as int - '0' as int)
  }

  /** "%d" % n for n >= 0: decimal digits, most significant first, that read back as n. */
  function Decimal(n: nat): (s: string)
    ensures 0 < |s| && AllDecimal(s)
    ensures DecimalValue(s) == n
    ensures n >= 10 ==> s[0] != '0'
    decreases n
  {
    var d := ('0' as int + n % 10) as char;
    if n < 10 then [d]
    else
      var s := Decimal(n / 10) + [d];
      assert s[..|s| - 1] == Decimal(n / 10);
      s
  }

  /** Concatenation is associative; stated for the proofs that regroup traces and texts. */
  lemma AppendAssoc<T>(a: seq<T>, b: seq<T>, c: seq<T>)
    ensures (a + b) + c == a + (b + c)
  {
  }

  /** A sequence is its prefix followed by the rest. */
  lemma Split<T>(s: seq<T>, n: nat)
    requires n <= |s|
    ensures s[..n] + s[n..] == s
  {
  }
}
