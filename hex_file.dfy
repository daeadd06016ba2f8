/**
 * The loader's ad-hoc ".hex" format: lines of hexadecimal digit pairs with anything
 * between them, "#" comment lines, no addresses. importHex reads it and
 * dataToHexStrings writes it (mcard.py, lines 256-287).
 */
module HexFile {
  import opened Hex
  import opened Text

  // ---------------------------------------------------------------------------
  // Reading
  // ---------------------------------------------------------------------------

  /**
   * re.findall(r'([a-fA-F0-9][a-fA-F0-9])', s): scanning left to right, two hex
   * digits in a row are one match and the scan resumes after them; any other
   * character, or a hex digit not followed by one, is skipped.
   */
  function FindPairs(s: string): seq<PairText>
    decreases |s|
  {
    if |s| < 2 then []
    else if IsHexDigit(s[0]) && IsHexDigit(s[1]) then [s[..2]] + FindPairs(s[2..])
    else FindPairs(s[1..])
  }

  /** string.atoi(num, 16) of every match, in order. */
  function PairValues(pairs: seq<PairText>): (bb: seq<byte>)
    ensures |bb| == |pairs|
    decreases |pairs|
  {
    if pairs == [] then [] else PairValues(pairs[..|pairs| - 1]) + [PairValue(pairs[|pairs| - 1])]
  }

  lemma {:induction false} PairValuesAppend(a: seq<PairText>, b: seq<PairText>)
    ensures PairValues(a + b) == PairValues(a) + PairValues(b)
    decreases |b|
  {
    if b == [] {
      assert a + b == a;
    } else {
      assert (a + b)[..|a + b| - 1] == a + b[..|b| - 1];
      PairValuesAppend(a, b[..|b| - 1]);
    }
  }

  /** What one line read from the file adds to the image: nothing when the stripped line is empty or starts with '#'. */
  function LineBytes(line: string): seq<byte> {
    var s := Strip(line);
    if |s| == 0 || s[0] == '#' then [] else PairValues(FindPairs(s))
  }

  /** The bytes of all lines, in file order. */
  function LinesBytes(lines: seq<string>): seq<byte> {
    FlatMap(lines, LineBytes)
  }

  function FlatMap(lines: seq<string>, f: string -> seq<byte>): seq<byte>
    decreases |lines|
  {
    if lines == [] then [] else FlatMap(lines[..|lines| - 1], f) + f(lines[|lines| - 1])
  }

  lemma {:induction false} FlatMapAppend(a: seq<string>, b: seq<string>, f: string -> seq<byte>)
    ensures FlatMap(a + b, f) == FlatMap(a, f) + FlatMap(b, f)
    decreases |b|
  {
    if b == [] {
      assert a + b == a;
    } else {
      var b' := b[..|b| - 1];
      assert (a + b)[..|a + b| - 1] == a + b';
      FlatMapAppend(a, b', f);
    }
  }

  /** importHex (mcard.py:256-273) once the file has been read into lines: the bytes it hands to add_binary. */
  method ImportHex(lines: seq<string>) returns (bb: seq<byte>)
    ensures bb == LinesBytes(lines)
  {
    bb := [];
    for i := 0 to |lines|
      invariant bb == LinesBytes(lines[..i])
    {
      assert lines[..i + 1][..i] == lines[..i];
      var line := Strip(lines[i]);
      if |line| == 0 || line[0] == '#' {
        continue;
      }
      var m := FindPairs(line);
      for j := 0 to |m|
        invariant bb == LinesBytes(lines[..i]) + PairValues(m[..j])
      {
        assert m[..j + 1][..j] == m[..j];
        bb := bb + [PairValue(m[j])];
      }
      assert m[..|m|] == m;
    }
    assert lines[..|lines|] == lines;
  }

  /** Reading a file in two parts gives the bytes of the first part followed by those of the second. */
  lemma LinesBytesAppend(a: seq<string>, b: seq<string>)
    ensures LinesBytes(a + b) == LinesBytes(a) + LinesBytes(b)
  {
    FlatMapAppend(a, b, LineBytes);
  }

  /** A file in which no line adds anything (blank, comment or digit-less lines) gives an empty image. */
  lemma {:induction false} NothingKept(lines: seq<string>)
    requires forall i :: 0 <= i < |lines| ==> LineBytes(lines[i]) == []
    ensures LinesBytes(lines) == []
    decreases |lines|
  {
    if lines != [] {
      NothingKept(lines[..|lines| - 1]);
    }
  }

  /** Blank lines and comment lines can be inserted anywhere without changing the image. */
  lemma SkippedLine(a: seq<string>, line: string, b: seq<string>)
    requires |Strip(line)| == 0 || Strip(line)[0] == '#'
    ensures LinesBytes(a + [line] + b) == LinesBytes(a + b)
  {
    assert LineBytes(line) == [];
    LinesBytesSingle(line);
    LinesBytesAppend(a + [line], b);
    LinesBytesAppend(a, [line]);
    LinesBytesAppend(a, b);
  }

  lemma LinesBytesSingle(line: string)
    ensures LinesBytes([line]) == LineBytes(line)
  {
    assert [line][..0] == [];
    assert FlatMap([line], LineBytes) == FlatMap([], LineBytes) + LineBytes(line);
  }

  /** A line yields no bytes exactly when no two hex digits stand next to each other in it (so a lone digit yields nothing). */
  lemma {:induction false} FindPairsEmpty(s: string)
    ensures FindPairs(s) == [] <==> forall i :: 0 <= i < |s| - 1 ==> !(IsHexDigit(s[i]) && IsHexDigit(s[i + 1]))
    decreases |s|
  {
    if |s| >= 2 && !(IsHexDigit(s[0]) && IsHexDigit(s[1])) {
      FindPairsEmpty(s[1..]);
      assert forall i :: 1 <= i < |s| - 1 ==> s[i] == s[1..][i - 1] && s[i + 1] == s[1..][i];
    }
  }

  /** A character that is not a hex digit separates: the pairs on its two sides are found independently. */
  lemma {:induction false} FindPairsSeparator(a: string, c: char, b: string)
    requires !IsHexDigit(c)
    ensures FindPairs(a + [c] + b) == FindPairs(a) + FindPairs(b)
    decreases |a|
  {
    var s := a + [c] + b;
    if |a| == 0 {
      assert s == [c] + b;
      SkipSeparator(c, b);
    } else if |a| == 1 {
      assert s[1..] == [c] + b;
      SkipSeparator(c, b);
      assert FindPairs(s) == FindPairs(s[1..]);
    } else if IsHexDigit(a[0]) && IsHexDigit(a[1]) {
      assert s[..2] == a[..2];
      assert s[2..] == a[2..] + [c] + b;
      FindPairsSeparator(a[2..], c, b);
      assert FindPairs(s) == [a[..2]] + FindPairs(s[2..]);
    } else {
      assert s[1..] == a[1..] + [c] + b;
      FindPairsSeparator(a[1..], c, b);
      assert FindPairs(s) == FindPairs(s[1..]);
    }
  }

  lemma SkipSeparator(c: char, b: string)
    requires !IsHexDigit(c)
    ensures FindPairs([c] + b) == FindPairs(b)
  {
    if |b| > 0 {
      assert ([c] + b)[1..] == b;
    }
  }

  /** The pairs of a rendered byte string are its bytes' renderings, so they read back as the bytes. */
  lemma {:induction false} FindPairsOfHexString(data: seq<byte>)
    ensures PairValues(FindPairs(HexString(data))) == data
    decreases |data|
  {
    if data != [] {
      var s := HexString(data);
      assert s == HexPair(data[0]) + HexString(data[1..]);
      assert s[..2] == HexPair(data[0]);
      assert s[2..] == HexString(data[1..]);
      FindPairsOfHexString(data[1..]);
      var m := FindPairs(s);
      assert m == [HexPair(data[0])] + FindPairs(HexString(data[1..]));
      PairValuesAppend([HexPair(data[0])], FindPairs(HexString(data[1..])));
      assert PairValues([HexPair(data[0])]) == [data[0]] by {
        assert [HexPair(data[0])][..0] == [];
      }
      assert data == [data[0]] + data[1..];
    }
  }

  /** file.readlines(): the text cut after every "\n"; the last line may lack one. */
  function ReadLines(text: string): (lines: seq<string>)
    ensures Concat(lines) == text
    ensures forall i :: 0 <= i < |lines| ==> |lines[i]| > 0
    decreases |text|
  {
    if text == [] then []
    else
      var n := NewlineIndex(text);
      if n < |text| then
        var lines := [text[..n + 1]] + ReadLines(text[n + 1..]);
        assert lines[1..] == ReadLines(text[n + 1..]);
        Split(text, n + 1);
        lines
      else [text]
  }

  /** Every line but the last ends in "\n". */
  predicate EndsInNewline(lines: seq<string>) {
    forall i :: 0 <= i < |lines| - 1 ==> |lines[i]| > 0 && lines[i][|lines[i]| - 1] == '\n'
  }

  /** No line holds a "\n" before its last character. */
  predicate NoInnerNewline(lines: seq<string>) {
    forall i, j :: 0 <= i < |lines| && 0 <= j < |lines[i]| - 1 ==> lines[i][j] != '\n'
  }

  /** readlines cuts right after each "\n" ... */
  lemma {:induction false} ReadLinesEndings(text: string)
    ensures EndsInNewline(ReadLines(text))
    decreases |text|
  {
    if text != [] {
      var n := NewlineIndex(text);
      if n < |text| {
        ReadLinesEndings(text[n + 1..]);
        var lines := ReadLines(text);
        var rest := ReadLines(text[n + 1..]);
        assert lines == [text[..n + 1]] + rest;
        forall i | 1 <= i < |lines| - 1
          ensures lines[i][|lines[i]| - 1] == '\n'
        {
          assert lines[i] == rest[i - 1];
          assert i - 1 < |rest| - 1;
        }
      }
    }
  }

  /** ... and nowhere else. */
  lemma {:induction false} ReadLinesNoInner(text: string)
    ensures NoInnerNewline(ReadLines(text))
    decreases |text|
  {
    if text != [] {
      var n := NewlineIndex(text);
      if n < |text| {
        ReadLinesNoInner(text[n + 1..]);
        var lines := ReadLines(text);
        var rest := ReadLines(text[n + 1..]);
        assert lines == [text[..n + 1]] + rest;
        assert forall j :: 0 <= j < |lines[0]| - 1 ==> lines[0][j] != '\n';
        forall i, j | 1 <= i < |lines| && 0 <= j < |lines[i]| - 1
          ensures lines[i][j] != '\n'
        {
          assert lines[i] == rest[i - 1];
          assert rest[i - 1][j] != '\n';
        }
      }
    }
  }

  function Concat(lines: seq<string>): string
    decreases |lines|
  {
    if lines == [] then "" else lines[0] + Concat(lines[1..])
  }

  /** The position of the first "\n", or |s| if there is none. */
  function NewlineIndex(s: string): (n: nat)
    ensures n <= |s| && (n < |s| ==> s[n] == '\n')
    ensures forall i :: 0 <= i < n ==> s[i] != '\n'
    decreases |s|
  {
    if s == [] || s[0] == '\n' then 0 else 1 + NewlineIndex(s[1..])
  }

  /** The lines "DEAD\n" and "BEEF" read as DE AD BE EF: lines are concatenated, with no addresses. */
  lemma ImportExample()
    ensures LinesBytes(["DEAD\n", "BEEF"]) == [0xDE, 0xAD, 0xBE, 0xEF]
  {
    TwoHexLines("DEAD", "BEEF");
    assert "DEAD" + "\n" == "DEAD\n";
    assert PairValue("DEAD"[..2]) == 0xDE && PairValue("DEAD"[2..]) == 0xAD;
    assert PairValue("BEEF"[..2]) == 0xBE && PairValue("BEEF"[2..]) == 0xEF;
  }

  /** Two lines of four hex digits each, the first ended by "\n", read as four bytes. */
  lemma TwoHexLines(a: string, b: string)
    requires |a| == 4 && AllHex(a) && |b| == 4 && AllHex(b)
    ensures LinesBytes([a + "\n", b]) ==
      [PairValue(a[..2]), PairValue(a[2..]), PairValue(b[..2]), PairValue(b[2..])]
  {
    StripNewline(a);
    StripUnchanged(b);
    HexDecodeExample(a, PairValue(a[..2]), PairValue(a[2..]));
    HexDecodeExample(b, PairValue(b[..2]), PairValue(b[2..]));
    assert [a + "\n", b] == [a + "\n"] + [b];
    LinesBytesAppend([a + "\n"], [b]);
    LinesBytesSingle(a + "\n");
    LinesBytesSingle(b);
  }

  lemma HexDecodeExample(s: string, x: byte, y: byte)
    requires |s| == 4 && AllHex(s)
    requires PairValue(s[..2]) == x && PairValue(s[2..]) == y
    ensures PairValues(FindPairs(s)) == [x, y]
  {
    var p, q: PairText := s[..2], s[2..];
    assert s[2..][..2] == q && s[2..][2..] == [];
    assert FindPairs(s[2..]) == [q];
    assert FindPairs(s) == [p, q];
    assert [p, q][..1] == [p] && [p][..0] == [];
    assert PairValues([p]) == [x];
    assert PairValues([p, q]) == PairValues([p]) + [y];
  }

  // ---------------------------------------------------------------------------
  // Writing
  // ---------------------------------------------------------------------------

  /**
   * The text dataToHexStrings returns: sixteen "%02X" pairs and a "\n" per full
   * line, the pairs of a final partial line with no "\n" after them.
   */
  function HexText(data: seq<byte>): (text: string)
    ensures |text| >= 2 * |data|
    decreases |data|
  {
    if |data| < 16 then HexString(data)
    else HexString(data[..16]) + "\n" + HexText(data[16..])
  }

  /** dataToHexStrings (mcard.py:277-287). */
  method DataToHexStrings(data: seq<byte>) returns (buf: string)
    ensures buf == HexText(data)
  {
    buf := "";
    var bytes := 0;
    ghost var lines := 0;
    for i := 0 to |data|
      invariant 16 * lines + bytes == i && bytes < 16
      invariant buf == Rendered(data, lines, i)
    {
      Advance(data, lines, i);
      buf := buf + HexPair(data[i]);
      bytes := bytes + 1;
      if bytes >= 16 {
        buf := buf + "\n";
        bytes := 0;
        lines := lines + 1;
      }
    }
    LastLine(data, lines);
  }

  /** What dataToHexStrings has built after i bytes, of which the first 16 * lines are whole lines. */
  ghost function Rendered(data: seq<byte>, lines: nat, i: nat): string
    requires 16 * lines <= i <= |data|
  {
    HexText(data[..16 * lines]) + HexString(data[16 * lines..i])
  }

  /** One step of dataToHexStrings: a pair is appended, and a "\n" once the line holds sixteen. */
  lemma Advance(data: seq<byte>, lines: nat, i: nat)
    requires 16 * lines <= i < |data| && i < 16 * lines + 16
    ensures i + 1 < 16 * lines + 16 ==> Rendered(data, lines, i + 1) == Rendered(data, lines, i) + HexPair(data[i])
    ensures i + 1 == 16 * lines + 16 ==> Rendered(data, lines + 1, i + 1) == Rendered(data, lines, i) + HexPair(data[i]) + "\n"
  {
    var start := 16 * lines;
    PairStep(data, start, i);
    if i + 1 == start + 16 {
      var done, line, pair := HexText(data[..start]), HexString(data[start..i]), HexPair(data[i]);
      LineStep(data, lines, i + 1);
      HexStringEmpty(data, i + 1);
      calc {
        Rendered(data, lines + 1, i + 1);
        HexText(data[..i + 1]) + "";
        done + (line + pair) + "\n";
        { AppendAssoc(done, line, pair); }
        (done + line) + pair + "\n";
      }
    }
  }

  lemma PairStep(data: seq<byte>, start: nat, i: nat)
    requires start <= i < |data|
    ensures HexString(data[start..i + 1]) == HexString(data[start..i]) + HexPair(data[i])
  {
    assert data[start..i + 1] == data[start..i] + [data[i]];
    HexStringAppend(data[start..i], [data[i]]);
  }

  lemma LineStep(data: seq<byte>, k: nat, end: nat)
    requires end == 16 * k + 16 <= |data|
    ensures HexText(data[..end]) == HexText(data[..16 * k]) + HexString(data[16 * k..end]) + "\n"
  {
    var start := 16 * k;
    FullLine(data[..start], data[start..end], k);
    assert data[..start] + data[start..end] == data[..end];
  }

  lemma LastLine(data: seq<byte>, k: nat)
    requires 16 * k <= |data| < 16 * k + 16
    ensures HexText(data) == Rendered(data, k, |data|)
  {
    var start := 16 * k;
    var p, q := data[..start], data[start..];
    assert q == data[start..|data|];
    assert HexText(q) == HexString(q);
    HexTextAppend(p, q, k);
    Split(data, start);
  }

  lemma FullLine(p: seq<byte>, q: seq<byte>, k: nat)
    requires |p| == 16 * k && |q| == 16
    ensures HexText(p + q) == HexText(p) + HexString(q) + "\n"
  {
    HexTextAppend(p, q, k);
    assert q[..16] == q && q[16..] == [];
  }

  /** Rendering in two parts, the first of whole lines, is rendering the whole. */
  lemma {:induction false} HexTextAppend(p: seq<byte>, q: seq<byte>, k: nat)
    requires |p| == 16 * k
    ensures HexText(p + q) == HexText(p) + HexText(q)
    decreases k
  {
    if k == 0 {
      assert p + q == q;
    } else {
      assert (p + q)[..16] == p[..16];
      assert (p + q)[16..] == p[16..] + q;
      HexTextAppend(p[16..], q, k - 1);
    }
  }

  /** Two characters per byte and one "\n" per sixteen bytes. */
  lemma {:induction false} HexTextLength(data: seq<byte>)
    ensures |HexText(data)| == 2 * |data| + |data| / 16
    decreases |data|
  {
    if |data| >= 16 {
      HexTextLength(data[16..]);
    }
  }

  /** Written line by line, 33 characters each: column 32 of a line is its "\n", every other character an upper-case hex digit. */
  lemma {:induction false} HexTextLayout(data: seq<byte>, line: nat, col: nat)
    requires col < 33 && 33 * line + col < |HexText(data)|
    ensures HexText(data)[33 * line + col] == '\n' <==> col == 32
    ensures col != 32 ==> IsUpperHexDigit(HexText(data)[33 * line + col])
    decreases line
  {
    if |data| < 16 {
      HexStringDigits(data);
    } else {
      HexStringDigits(data[..16]);
      var head := HexString(data[..16]) + "\n";
      var rest := HexText(data[16..]);
      if line > 0 {
        HexTextLayout(data[16..], line - 1, col);
        Shifted(head, rest, 33 * (line - 1) + col);
      } else if col < 32 {
        assert (head + rest)[col] == HexString(data[..16])[col];
      }
    }
  }

  lemma Shifted(head: string, rest: string, x: nat)
    requires x < |rest|
    ensures (head + rest)[|head| + x] == rest[x]
  {
  }

  /** Byte 16 * line + col of the data is written on that line at column 2 * col: input order is kept. */
  lemma {:induction false} HexTextPairAt(data: seq<byte>, line: nat, col: nat)
    requires col < 16 && 16 * line + col < |data|
    ensures 33 * line + 2 * col + 2 <= |HexText(data)|
    ensures HexText(data)[33 * line + 2 * col..33 * line + 2 * col + 2] == HexPair(data[16 * line + col])
    decreases line
  {
    if line == 0 {
      FirstLinePairAt(data, col);
    } else {
      HexTextPairAt(data[16..], line - 1, col);
      var head := HexString(data[..16]) + "\n";
      var rest := HexText(data[16..]);
      assert HexText(data) == head + rest;
      assert |head| == 33;
      ShiftedSlice(head, rest, 33 * (line - 1) + 2 * col);
    }
  }

  lemma FirstLinePairAt(data: seq<byte>, col: nat)
    requires col < 16 && col < |data|
    ensures 2 * col + 2 <= |HexText(data)|
    ensures HexText(data)[2 * col..2 * col + 2] == HexPair(data[col])
  {
    if |data| < 16 {
      assert HexText(data) == HexString(data);
      HexStringAt(data, col);
    } else {
      var head := HexString(data[..16]);
      HexStringAt(data[..16], col);
      assert HexText(data) == head + ("\n" + HexText(data[16..]));
      PrefixSlice(head, "\n" + HexText(data[16..]), 2 * col);
    }
  }

  lemma PrefixSlice(head: string, rest: string, x: nat)
    requires x + 2 <= |head|
    ensures (head + rest)[x..x + 2] == head[x..x + 2]
  {
  }

  lemma ShiftedSlice(head: string, rest: string, x: nat)
    requires x + 2 <= |rest|
    ensures (head + rest)[|head| + x..|head| + x + 2] == rest[x..x + 2]
  {
  }

  /** importHex reads back what dataToHexStrings writes. */
  lemma {:induction false} HexTextRoundTrip(data: seq<byte>)
    ensures LinesBytes(ReadLines(HexText(data))) == data
    decreases |data|
  {
    if |data| == 0 {
    } else if |data| < 16 {
      RenderedLastLine(data);
      LinesBytesSingle(HexString(data));
    } else {
      var line := HexString(data[..16]) + "\n";
      var rest := HexText(data[16..]);
      assert HexText(data) == line + rest;
      RenderedLine(data[..16], rest);
      HexTextRoundTrip(data[16..]);
      LinesBytesAppend([line], ReadLines(rest));
      LinesBytesSingle(line);
      Split(data, 16);
    }
  }

  /** A full rendered line is read as one line, and its bytes come back. */
  lemma RenderedLine(q: seq<byte>, rest: string)
    requires |q| > 0
    ensures ReadLines(HexString(q) + "\n" + rest) == [HexString(q) + "\n"] + ReadLines(rest)
    ensures LineBytes(HexString(q) + "\n") == q
  {
    var s := HexString(q);
    HexStringDigits(q);
    ReadLinesCons(s + "\n", rest);
    StripNewline(s);
    FindPairsOfHexString(q);
  }

  /** A final partial line is read as one line, and its bytes come back. */
  lemma RenderedLastLine(q: seq<byte>)
    requires |q| > 0
    ensures ReadLines(HexString(q)) == [HexString(q)]
    ensures LineBytes(HexString(q)) == q
  {
    HexStringDigits(q);
    ReadLinesSingle(HexString(q));
    LastLineBytes(q);
  }

  /** Text holding no "\n" is one line. */
  lemma ReadLinesSingle(s: string)
    requires |s| > 0 && forall i :: 0 <= i < |s| ==> s[i] != '\n'
    ensures ReadLines(s) == [s]
  {
    NewlineIndexNone(s);
  }

  lemma LastLineBytes(q: seq<byte>)
    requires |q| > 0
    ensures LineBytes(HexString(q)) == q
  {
    var s := HexString(q);
    HexStringDigits(q);
    assert IsUpperHexDigit(s[0]) && IsUpperHexDigit(s[|s| - 1]);
    StripUnchanged(s);
    assert Strip(s) == s && s[0] != '#';
    FindPairsOfHexString(q);
  }

  lemma ReadLinesCons(line: string, rest: string)
    requires |line| > 0 && line[|line| - 1] == '\n'
    requires forall i :: 0 <= i < |line| - 1 ==> line[i] != '\n'
    ensures ReadLines(line + rest) == [line] + ReadLines(rest)
  {
    var t := line + rest;
    NewlineIndexIs(t, |line| - 1);
    assert t[..|line|] == line && t[|line|..] == rest;
  }

  lemma {:induction false} NewlineIndexNone(s: string)
    requires forall i :: 0 <= i < |s| ==> s[i] != '\n'
    ensures NewlineIndex(s) == |s|
    decreases |s|
  {
    if s != [] {
      NewlineIndexNone(s[1..]);
    }
  }

  lemma {:induction false} NewlineIndexIs(s: string, n: nat)
    requires n < |s| && s[n] == '\n' && forall i :: 0 <= i < n ==> s[i] != '\n'
    ensures NewlineIndex(s) == n
    decreases n
  {
    if n > 0 {
      NewlineIndexIs(s[1..], n - 1);
    }
  }
}
