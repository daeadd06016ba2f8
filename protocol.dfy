/**
 * The line protocol between the loader and the Arduino that drives the Membership Card
 * (mcard.py, lines 180-246 and 381-459), as pure functions of the characters the other
 * end sends back. A serial read(n) returns at most n characters; when the other end has
 * sent fewer before the timeout, it returns what there is, possibly nothing.
 */
module Protocol {
  import opened Wrappers
  import opened Errors
  import opened Hex
  import opened Text
  import opened HexFile

  /** MAX_HEX_PAIRS: the largest number of bytes sent or requested in one line. */
  const MaxHexPairs: nat := 16

  function Min(a: int, b: int): int {
    if a <= b then a else b
  }

  // ---------------------------------------------------------------------------
  // Command texts
  // ---------------------------------------------------------------------------

  /**
   * "%04X" % n: at least four upper-case digits, zero-padded, that read back as n; a
   * negative n gets a '-' and at least three digits of its magnitude.
   */
  function Hex04(n: int): (s: string)
    ensures n >= 0 ==> |s| >= 4 && AllUpperHex(s) && HexValue(s) == n
    ensures n < 0 ==> |s| >= 4 && s[0] == '-' && AllUpperHex(s[1..]) && HexValue(s[1..]) == -n
    ensures n >= 0x1000 ==> s == HexDigits(n)
  {
    if n >= 0 then
      if n >= 0x1000 then
        assert Pow16(3) == 0x1000;
        HexDigitsAtLeast(n, 3);
        ZeroPad(HexDigits(n), 4)
      else ZeroPad(HexDigits(n), 4)
    else
      var s := "-" + ZeroPad(HexDigits(-n), 3);
      assert s[1..] == ZeroPad(HexDigits(-n), 3);
      s
  }

  /** An address of the 1802's 64K space is sent as exactly four digits that read back as it. */
  lemma Hex04Address(n: int)
    requires 0 <= n < 0x10000
    ensures |Hex04(n)| == 4 && AllUpperHex(Hex04(n)) && HexValue(Hex04(n)) == n
  {
    assert Pow16(4) == 0x10000;
    HexDigitsLength(n, 4);
  }

  /** setDownloadMode's command. */
  function DownloadModeCmd(addr: int): string {
    "*D" + Hex04(addr)
  }

  /** setUploadMode's command. */
  function UploadModeCmd(addr: int): string {
    "*U" + Hex04(addr)
  }

  /** setResetMode's command. */
  const ResetCmd: string := "*C"

  /** setRunMode's command. */
  const RunCmd: string := "*R"

  /** The two mode commands carry the address as four digits after a two-character prefix. */
  lemma ModeCommands(addr: int)
    requires 0 <= addr < 0x10000
    ensures |DownloadModeCmd(addr)| == 6 && DownloadModeCmd(addr)[..2] == "*D"
    ensures |UploadModeCmd(addr)| == 6 && UploadModeCmd(addr)[..2] == "*U"
    ensures DownloadModeCmd(addr)[2..] == UploadModeCmd(addr)[2..]
    ensures AllUpperHex(DownloadModeCmd(addr)[2..]) && HexValue(DownloadModeCmd(addr)[2..]) == addr
  {
    Hex04Address(addr);
    assert DownloadModeCmd(addr)[2..] == Hex04(addr);
    assert UploadModeCmd(addr)[2..] == Hex04(addr);
  }

  /** readDataBytes's request "<%d" % count. */
  function ReadRequestCmd(count: nat): string {
    "<" + Decimal(count)
  }

  /** The read request is '<' followed by decimal digits that read back as the count. */
  lemma ReadRequestDecimal(count: nat)
    ensures var c := ReadRequestCmd(count);
      |c| >= 2 && c[0] == '<' && AllDecimal(c[1..]) && DecimalValue(c[1..]) == count
  {
    assert ReadRequestCmd(count)[1..] == Decimal(count);
  }

  /**
   * The commands the host sends are told apart by their first two characters: the four
   * mode commands by '*' and a letter of their own, the read request by '<'.
   */
  lemma CommandsDistinct(a: int, b: int, count: nat)
    ensures DownloadModeCmd(a)[..2] == "*D" && UploadModeCmd(a)[..2] == "*U"
    ensures ResetCmd == "*C" && RunCmd == "*R"
    ensures DownloadModeCmd(a) != UploadModeCmd(b) && DownloadModeCmd(a) != ResetCmd && DownloadModeCmd(a) != RunCmd
    ensures UploadModeCmd(a) != ResetCmd && UploadModeCmd(a) != RunCmd && ResetCmd != RunCmd
    ensures ReadRequestCmd(count)[0] == '<' && DownloadModeCmd(a)[0] == UploadModeCmd(a)[0] == ResetCmd[0] == RunCmd[0] == '*'
  {
    assert DownloadModeCmd(a)[1] == 'D' && UploadModeCmd(b)[1] == 'U';
    assert ReadRequestCmd(count)[0] == '<';
  }

  // ---------------------------------------------------------------------------
  // Sending commands
  // ---------------------------------------------------------------------------

  /** What serialPort.read(n) returns from the characters waiting. */
  function Taken(input: string, n: nat): (r: string)
    ensures |r| == Min(n, |input|) && r == input[..|r|]
  {
    input[..Min(n, |input|)]
  }

  /** The characters still waiting after serialPort.read(n). */
  function Left(input: string, n: nat): (r: string)
    ensures Taken(input, n) + r == input
  {
    input[Min(n, |input|)..]
  }

  /** Reading one character from a queue takes its head. */
  lemma ReplyTaken(c: char, s: string)
    ensures Taken([c] + s, 1) == [c] && Left([c] + s, 1) == s
  {
  }

  /** A command answered by '!' is accepted, and the '!' is used up. */
  lemma Acked(cmd: string, after: string)
    ensures CommandSent(cmd, true, "!" + after) == Exchange([cmd + "\n"], after, Pass)
  {
    ReplyTaken('!', after);
  }

  /** sendCmd's verdict on the reply to cmd: '!' accepts, '#' is a device error, anything else (nothing included) a timeout. */
  function AckOutcome(cmd: string, reply: string): (o: Outcome<Error>)
    ensures o.Pass? <==> reply == "!"
    ensures o.Fail? ==> o.error == (if reply == "#" then DeviceReportedError(cmd) else AckTimeout(cmd))
  {
    if reply == "!" then Pass
    else if reply == "#" then Fail(DeviceReportedError(cmd))
    else Fail(AckTimeout(cmd))
  }

  /** What a run of sendCmd calls wrote, what it left unread, and how it ended. */
  datatype Exchange = Exchange(written: seq<string>, rest: string, outcome: Outcome<Error>)

  /** sendCmd (mcard.py:180-193) on an open port: the line is written; with ack one character is read and judged. */
  function CommandSent(cmd: string, ack: bool, input: string): (e: Exchange)
    ensures e.written == [cmd + "\n"]
    ensures !ack ==> e.rest == input && e.outcome == Pass
    ensures ack ==> e.rest == Left(input, 1)
    ensures ack ==> (e.outcome == Pass <==> |input| > 0 && input[0] == '!')
    ensures ack && |input| > 0 && input[0] == '#' ==> e.outcome == Fail(DeviceReportedError(cmd))
    ensures ack && (|input| == 0 || input[0] !in "!#") ==> e.outcome == Fail(AckTimeout(cmd))
  {
    if !ack then Exchange([cmd + "\n"], input, Pass)
    else
      var reply := Taken(input, 1);
      assert |input| > 0 ==> reply == [input[0]];
      Exchange([cmd + "\n"], Left(input, 1), AckOutcome(cmd, reply))
  }

  /** Acknowledged commands one after the other; a failure ends the program, so nothing after it is sent. */
  function CommandsSent(cmds: seq<string>, input: string): (e: Exchange)
    ensures |e.written| <= |cmds| && e.written == Lines(cmds[..|e.written|])
    ensures e.outcome.Pass? ==> e.written == Lines(cmds)
    decreases |cmds|
  {
    if cmds == [] then Exchange([], input, Pass)
    else
      var before := CommandsSent(cmds[..|cmds| - 1], input);
      assert cmds[..|cmds| - 1][..|before.written|] == cmds[..|before.written|];
      if before.outcome.Fail? then before
      else
        var last := CommandSent(cmds[|cmds| - 1], true, before.rest);
        assert cmds[..|cmds|] == cmds;
        Exchange(before.written + last.written, last.rest, last.outcome)
  }

  /** A single acknowledged command. */
  lemma OneCommand(c: string, input: string)
    ensures CommandsSent([c], input) == CommandSent(c, true, input)
  {
    assert [c][..0] == [];
  }

  /** One more command is sent only if all before it were accepted. */
  lemma CommandsSentSnoc(cmds: seq<string>, c: string, input: string)
    ensures var before := CommandsSent(cmds, input);
      var last := CommandSent(c, true, before.rest);
      CommandsSent(cmds + [c], input) ==
        if before.outcome.Fail? then before else Exchange(before.written + last.written, last.rest, last.outcome)
  {
    assert (cmds + [c])[..|cmds|] == cmds;
  }

  /** Two commands: the second is sent only if the first is accepted. */
  lemma TwoCommands(a: string, b: string, input: string)
    ensures var first := CommandSent(a, true, input);
      var second := CommandSent(b, true, first.rest);
      CommandsSent([a, b], input) ==
        if first.outcome.Fail? then first else Exchange(first.written + second.written, second.rest, second.outcome)
  {
    assert [a, b][..1] == [a] && [a][..0] == [];
    assert CommandsSent([a], input) == CommandSent(a, true, input);
  }

  /** The lines that carry the given commands. */
  function Lines(cmds: seq<string>): (r: seq<string>)
    ensures |r| == |cmds|
    decreases |cmds|
  {
    if cmds == [] then [] else Lines(cmds[..|cmds| - 1]) + [cmds[|cmds| - 1] + "\n"]
  }

  /** Line i carries command i. */
  lemma {:induction false} LinesAt(cmds: seq<string>, i: nat)
    requires i < |cmds|
    ensures Lines(cmds)[i] == cmds[i] + "\n"
    decreases |cmds|
  {
    if i < |cmds| - 1 {
      LinesAt(cmds[..|cmds| - 1], i);
    }
  }

  /** When the first |cmds| replies are all '!', every command is written, in order, and one reply each is used up. */
  lemma {:induction false} AllAcked(cmds: seq<string>, input: string)
    requires |cmds| <= |input| && forall i :: 0 <= i < |cmds| ==> input[i] == '!'
    ensures CommandsSent(cmds, input) == Exchange(Lines(cmds), input[|cmds|..], Pass)
    decreases |cmds|
  {
    if cmds != [] {
      var n := |cmds| - 1;
      AllAcked(cmds[..n], input);
      assert input[n..][0] == '!';
      assert input[n..][1..] == input[n + 1..];
    }
  }

  /** Once a command has failed, sending more changes nothing. */
  lemma {:induction false} FailureSticks(cmds: seq<string>, more: seq<string>, input: string)
    requires CommandsSent(cmds, input).outcome.Fail?
    ensures CommandsSent(cmds + more, input) == CommandsSent(cmds, input)
    decreases |more|
  {
    if more == [] {
      assert cmds + more == cmds;
    } else {
      var m := more[..|more| - 1];
      FailureSticks(cmds, m, input);
      assert (cmds + more)[..|cmds + more| - 1] == cmds + m;
    }
  }

  /**
   * The first reply that is not '!' (or is missing) stops the run right after the command
   * it answers: "Error returned" for '#', "Timeout waiting for ACK" otherwise.
   */
  lemma FirstRefusal(cmds: seq<string>, input: string, j: nat)
    requires j < |cmds| && j <= |input| && forall i :: 0 <= i < j ==> input[i] == '!'
    requires j == |input| || input[j] != '!'
    ensures CommandsSent(cmds, input).written == Lines(cmds[..j + 1])
    ensures CommandsSent(cmds, input).outcome ==
      Fail(if j < |input| && input[j] == '#' then DeviceReportedError(cmds[j]) else AckTimeout(cmds[j]))
  {
    AllAcked(cmds[..j], input);
    var head := cmds[..j + 1];
    assert head[..j] == cmds[..j];
    FailureSticks(head, cmds[j + 1..], input);
    Split(cmds, j + 1);
  }

  // ---------------------------------------------------------------------------
  // Download
  // ---------------------------------------------------------------------------

  /** The data lines downloadAction sends: "%02X" pairs, flushed every MAX_HEX_PAIRS bytes and once more for a partial rest. */
  function DataLines(data: seq<byte>): seq<string>
    decreases |data|
  {
    if |data| == 0 then []
    else if |data| <= MaxHexPairs then [HexString(data)]
    else [HexString(data[..MaxHexPairs])] + DataLines(data[MaxHexPairs..])
  }

  /** Everything downloadAction sends: the "*D" mode command with the --addr option, then the data lines. */
  function DownloadCommands(addr: int, data: seq<byte>): (cmds: seq<string>)
    ensures |cmds| == 1 + (|data| + 15) / 16
  {
    DataLinesCount(data);
    [DownloadModeCmd(addr)] + DataLines(data)
  }

  /** ceil(N / 16) data lines; none for no data. */
  lemma {:induction false} DataLinesCount(data: seq<byte>)
    ensures |DataLines(data)| == (|data| + 15) / 16
    decreases |data|
  {
    if |data| > 16 {
      DataLinesCount(data[16..]);
    }
  }

  /** Line i renders bytes 16i up to 16i+16, or to the end for the last line. */
  lemma {:induction false} DataLinesAt(data: seq<byte>, i: nat)
    requires i < |DataLines(data)|
    ensures 16 * i < |data|
    ensures DataLines(data)[i] == HexString(data[16 * i..Min(16 * i + 16, |data|)])
    decreases i
  {
    if i > 0 {
      var tail := data[16..];
      assert |data| > 16 && DataLines(data)[i] == DataLines(tail)[i - 1];
      DataLinesAt(tail, i - 1);
      var j := 16 * (i - 1);
      var e := Min(j + 16, |tail|);
      SliceOfTail(data, 16, j, e);
      assert 16 * i == 16 + j && Min(16 * i + 16, |data|) == 16 + e;
    } else {
      DataLinesFirst(data);
    }
  }

  lemma DataLinesFirst(data: seq<byte>)
    requires |data| > 0
    ensures DataLines(data)[0] == HexString(data[0..Min(16, |data|)])
  {
    if |data| <= 16 {
      assert data[0..|data|] == data;
    } else {
      assert data[0..16] == data[..16];
    }
  }

  lemma SliceOfTail<T>(s: seq<T>, d: nat, a: nat, b: nat)
    requires d <= |s| && a <= b <= |s| - d
    ensures s[d..][a..b] == s[d + a..d + b]
  {
  }

  /** Every line but the last has 32 characters; the last has 2 * (N mod 16), or 32 when 16 divides N. */
  lemma {:induction false} DataLinesLength(data: seq<byte>, i: nat)
    requires i < |DataLines(data)|
    ensures i + 1 < |DataLines(data)| ==> |DataLines(data)[i]| == 32
    ensures i + 1 == |DataLines(data)| ==> |DataLines(data)[i]| == (if |data| % 16 == 0 then 32 else 2 * (|data| % 16))
    decreases i
  {
    if i > 0 {
      assert |data| > 16;
      var tail := data[16..];
      assert DataLines(data)[i] == DataLines(tail)[i - 1] && |DataLines(data)| == 1 + |DataLines(tail)|;
      DataLinesLength(tail, i - 1);
      assert (|data| - 16) % 16 == |data| % 16;
    } else if |data| > 16 {
      assert |DataLines(data)| == 1 + |DataLines(data[16..])|;
    }
  }

  /** The lines put together are the hex of the whole image, in order. */
  lemma {:induction false} DataLinesConcat(data: seq<byte>)
    ensures Concat(DataLines(data)) == HexString(data)
    decreases |data|
  {
    if |data| > 16 {
      DataLinesConcat(data[16..]);
      var lines := DataLines(data);
      assert lines[1..] == DataLines(data[16..]);
      HexStringAppend(data[..16], data[16..]);
      Split(data, 16);
    } else if |data| > 0 {
      assert DataLines(data)[1..] == [];
    }
  }

  /** After k full lines ending at start, sixteen more bytes add one line. */
  lemma DataLinesNextLine(data: seq<byte>, k: nat, start: nat, end: nat)
    requires start == 16 * k && end == start + 16 <= |data|
    ensures DataLines(data[..end]) == DataLines(data[..start]) + [HexString(data[start..end])]
  {
    var p, q := data[..start], data[start..end];
    DataLinesAppend(p, q, k);
    assert p + q == data[..end];
    assert DataLines(q) == [HexString(q)];
  }

  /** After k full lines ending at start, fewer than sixteen bytes remaining make the last line. */
  lemma DataLinesLastLine(data: seq<byte>, k: nat, start: nat)
    requires start == 16 * k < |data| < start + 16
    ensures DataLines(data) == DataLines(data[..start]) + [HexString(data[start..|data|])]
  {
    var p, q := data[..start], data[start..];
    DataLinesAppend(p, q, k);
    Split(data, start);
    assert data[start..|data|] == q;
    assert DataLines(q) == [HexString(q)];
  }

  /** Splitting the image after whole lines splits the lines. */
  lemma {:induction false} DataLinesAppend(p: seq<byte>, q: seq<byte>, k: nat)
    requires |p| == 16 * k
    ensures DataLines(p + q) == DataLines(p) + DataLines(q)
    decreases k
  {
    if k == 0 {
      assert p + q == q;
    } else if q == [] {
      assert p + q == p;
    } else {
      assert (p + q)[..16] == p[..16];
      assert (p + q)[16..] == p[16..] + q;
      DataLinesAppend(p[16..], q, k - 1);
      if k == 1 {
        assert DataLines(p) == [HexString(p)];
        assert p[..16] == p;
      }
    }
  }

  /** A 20-byte image at address 0x0100: "*D0100", a line of 32 characters, then one of 8. */
  lemma DownloadExample(data: seq<byte>)
    requires |data| == 20
    ensures DownloadCommands(0x0100, data) == ["*D0100", HexString(data[..16]), HexString(data[16..])]
    ensures |HexString(data[..16])| == 32 && |HexString(data[16..])| == 8
  {
    assert HexDigits(1) == "1";
    assert HexDigits(16) == "10";
    assert HexDigits(0x0100) == "100";
    assert ZeroPad("100", 4) == ZeroPad("0100", 4) == "0100";
    assert DownloadModeCmd(0x0100) == "*D" + "0100" == "*D0100";
    assert DataLines(data[16..]) == [HexString(data[16..])];
    assert DataLines(data) == [HexString(data[..16])] + DataLines(data[16..]);
  }

  /** Sixteen more bytes of the image add one full line to what is sent. */
  lemma DownloadStep(addr: int, data: seq<byte>, k: nat)
    requires 16 * k + 16 <= |data|
    ensures DownloadCommands(addr, data[..16 * k + 16]) ==
      DownloadCommands(addr, data[..16 * k]) + [HexString(data[16 * k..16 * k + 16])]
  {
    var p, q := data[..16 * k], data[16 * k..16 * k + 16];
    DataLinesAppend(p, q, k);
    assert p + q == data[..16 * k + 16];
    assert DataLines(q) == [HexString(q)];
  }

  /** After k full lines, what remains to be sent is the lines of the rest of the image. */
  lemma DownloadRest(addr: int, data: seq<byte>, k: nat)
    requires 16 * k <= |data|
    ensures DownloadCommands(addr, data) == DownloadCommands(addr, data[..16 * k]) + DataLines(data[16 * k..])
  {
    DataLinesAppend(data[..16 * k], data[16 * k..], k);
    Split(data, 16 * k);
  }

  // ---------------------------------------------------------------------------
  // Upload
  // ---------------------------------------------------------------------------

  /** The counts uploadAction requests: min(16, remaining) while anything remains. */
  function ReadRequests(size: int): (counts: seq<nat>)
    ensures forall i :: 0 <= i < |counts| ==> 0 < counts[i] <= MaxHexPairs
    decreases size
  {
    if size <= 0 then []
    else if size > MaxHexPairs then [MaxHexPairs] + ReadRequests(size - MaxHexPairs)
    else [size]
  }

  /** Request n is made exactly when more than 16 * n bytes are asked for, and asks for what remains, at most 16. */
  lemma {:induction false} ReadRequestsAt(size: int, n: nat)
    ensures n < |ReadRequests(size)| <==> 16 * n < size
    ensures 16 * n < size ==> ReadRequests(size)[n] == Min(size - 16 * n, MaxHexPairs)
    decreases n
  {
    if n > 0 && size > MaxHexPairs {
      ReadRequestsAt(size - MaxHexPairs, n - 1);
    }
  }

  function Sum(counts: seq<nat>): nat
    decreases |counts|
  {
    if counts == [] then 0 else Sum(counts[..|counts| - 1]) + counts[|counts| - 1]
  }

  lemma {:induction false} SumAppend(a: seq<nat>, b: seq<nat>)
    ensures Sum(a + b) == Sum(a) + Sum(b)
    decreases |b|
  {
    if b == [] {
      assert a + b == a;
    } else {
      assert (a + b)[..|a + b| - 1] == a + b[..|b| - 1];
      SumAppend(a, b[..|b| - 1]);
    }
  }

  /** The requests add up to the --size option, or to nothing for a size <= 0. */
  lemma {:induction false} ReadRequestsSum(size: int)
    ensures Sum(ReadRequests(size)) == (if size <= 0 then 0 else size)
    decreases size
  {
    if size > MaxHexPairs {
      ReadRequestsSum(size - MaxHexPairs);
      SumAppend([MaxHexPairs], ReadRequests(size - MaxHexPairs));
      assert [MaxHexPairs][..0] == [];
    } else if size > 0 {
      assert [size][..0] == [];
    }
  }

  /** There are ceil(size / 16) requests of 1..16 bytes, all but the last of 16. */
  lemma {:induction false} ReadRequestsShape(size: int)
    ensures forall i :: 0 <= i < |ReadRequests(size)| ==> 0 < ReadRequests(size)[i] <= MaxHexPairs
    ensures forall i :: 0 <= i < |ReadRequests(size)| - 1 ==> ReadRequests(size)[i] == MaxHexPairs
    ensures |ReadRequests(size)| == (if size <= 0 then 0 else (size + 15) / 16)
    decreases size
  {
    if size > MaxHexPairs {
      ReadRequestsShape(size - MaxHexPairs);
    }
  }

  /** 40 bytes are asked for as 16, 16 and 8. */
  lemma ReadRequestsExample()
    ensures ReadRequests(40) == [16, 16, 8]
  {
  }

  /**
   * Python 2's int(s, 16): whitespace around, an optional sign, then at least one hex digit.
   * int() also accepts a "0x" prefix, which needs at least three characters; read(2)
   * never returns that many, so the prefix is left out.
   */
  function ParseField(s: string): (v: Option<int>)
    ensures 0 < |s| && AllHex(s) ==> v == Some(HexValue(s) as int)
  {
    var t := Strip(s);
    assert 0 < |s| && AllHex(s) ==> t == s by {
      if 0 < |s| && AllHex(s) {
        StripUnchanged(s);
      }
    }
    if |t| == 0 then None
    else
      var digits := if t[0] == '-' || t[0] == '+' then t[1..] else t;
      if |digits| > 0 && AllHex(digits) then Some(if t[0] == '-' then -(HexValue(digits) as int) else HexValue(digits))
      else None
  }

  /** Two hex digits read back as the byte they spell. */
  lemma ParseFieldPair(s: string)
    requires IsPair(s)
    ensures ParseField(s) == Some(PairValue(s))
  {
    StripUnchanged(s);
    assert s[..1] == [s[0]];
    assert HexValue(s[..1]) == DigitValue(s[0]) by {
      assert s[..1][..0] == [];
    }
  }

  /** What read(2) can return lies in -15..255 once parsed: two digits, or a sign and one. */
  lemma ParseFieldRange(s: string)
    requires |s| <= 2 && ParseField(s).Some?
    ensures -15 <= ParseField(s).value <= 255
  {
    var t := Strip(s);
    TrimLeftSpec(s);
    TrimRightSpec(TrimLeft(s));
    var digits := if t[0] == '-' || t[0] == '+' then t[1..] else t;
    HexValueBound(digits);
    assert Pow16(1) == 16 && Pow16(2) == 256;
  }

  lemma {:induction false} HexValueBound(s: string)
    requires AllHex(s)
    ensures HexValue(s) < Pow16(|s|)
    decreases |s|
  {
    if s != [] {
      HexValueBound(s[..|s| - 1]);
    }
  }

  /** rcvByte (mcard.py:197-202) on what read(2) returned; a text int() refuses is an error. */
  function Received(reply: string): (r: Result<int, Error>)
    ensures r.Failure? ==> r.error == MalformedByteRead(reply)
    ensures |reply| <= 2 && r.Success? ==> -15 <= r.value <= 255
    ensures IsPair(reply) ==> r == Success(PairValue(reply) as int)
  {
    match ParseField(reply)
    case None => Failure(MalformedByteRead(reply))
    case Some(v) =>
      assert |reply| <= 2 ==> -15 <= v <= 255 by {
        if |reply| <= 2 {
          ParseFieldRange(reply);
        }
      }
      assert IsPair(reply) ==> v == PairValue(reply) as int by {
        if IsPair(reply) {
          ParseFieldPair(reply);
        }
      }
      Success(v)
  }

  /** What a run of rcvByte calls produced, what it left unread, and how it ended. */
  datatype Reading = Reading(values: seq<byte>, rest: string, outcome: Outcome<Error>)

  /**
   * The loop of readDataBytes (mcard.py:240-246): count rcvByte calls, each value appended
   * to a bytearray, which refuses a negative one; the first failure ends the program.
   */
  function BytesRead(count: nat, input: string): (r: Reading)
    ensures |r.values| <= count
    ensures r.outcome.Pass? ==> |r.values| == count
    decreases count
  {
    if count == 0 then Reading([], input, Pass) else ByteRead(BytesRead(count - 1, input))
  }

  /** One more rcvByte call, made only if all before it succeeded. */
  function ByteRead(before: Reading): (r: Reading)
    ensures |before.values| <= |r.values| <= |before.values| + 1
    ensures r.outcome.Pass? ==> |r.values| == |before.values| + 1
  {
    if before.outcome.Fail? then before
    else
      var rest := Left(before.rest, 2);
      match Received(Taken(before.rest, 2))
      case Failure(e) => Reading(before.values, rest, Fail(e))
      case Success(v) =>
        if 0 <= v < 256 then Reading(before.values + [v], rest, Pass)
        else Reading(before.values, rest, Fail(ByteOutOfRange(v)))
  }

  /** One more rcvByte call after i good ones: its failure, a value out of range, or one more byte. */
  lemma BytesReadNext(i: nat, input: string, values: seq<byte>, rest: string, r: Result<int, Error>)
    requires BytesRead(i, input) == Reading(values, rest, Pass)
    requires r == Received(Taken(rest, 2))
    ensures r.Failure? ==> BytesRead(i + 1, input) == Reading(values, Left(rest, 2), Fail(r.error))
    ensures r.Success? && !(0 <= r.value < 256) ==>
      BytesRead(i + 1, input) == Reading(values, Left(rest, 2), Fail(ByteOutOfRange(r.value)))
    ensures r.Success? && 0 <= r.value < 256 ==> BytesRead(i + 1, input) == Reading(values + [r.value], Left(rest, 2), Pass)
  {
  }

  /** Once a read has failed, later ones are never made. */
  lemma {:induction false} BytesReadSticks(i: nat, count: nat, input: string)
    requires i <= count && BytesRead(i, input).outcome.Fail?
    ensures BytesRead(count, input) == BytesRead(i, input)
    decreases count - i
  {
    if i < count {
      BytesReadSticks(i, count - 1, input);
    }
  }

  /** Reading back the hex of some bytes yields exactly those bytes, two characters each. */
  lemma {:induction false} BytesReadHex(data: seq<byte>, tail: string)
    ensures BytesRead(|data|, HexString(data) + tail) == Reading(data, tail, Pass)
    decreases |data|
  {
    if data != [] {
      var n := |data| - 1;
      var pair := HexPair(data[n]);
      HexStringAppend(data[..n], [data[n]]);
      assert data[..n] + [data[n]] == data;
      assert HexString([data[n]]) == pair;
      assert HexString(data) + tail == HexString(data[..n]) + (pair + tail);
      BytesReadHex(data[..n], pair + tail);
      assert Taken(pair + tail, 2) == pair;
      assert Left(pair + tail, 2) == tail;
      ParseFieldPair(pair);
    }
  }

  /**
   * A reply cut short to one digit is still a byte: read(2) returns "A", int("A", 16) is
   * 10, and no error is raised.
   */
  lemma ShortReplyExample()
    ensures BytesRead(1, "A") == Reading([10], "", Pass)
  {
    assert Taken("A", 2) == "A" && Left("A", 2) == "";
    assert AllHex("A") && HexValue("A") == 10 by {
      assert "A"[..0] == [];
    }
    assert Received("A") == Success(10);
  }

  /** What uploadAction wrote and read, and how far it got. */
  datatype Upload = Upload(written: seq<string>, values: seq<byte>, rest: string, outcome: Outcome<Error>)

  /** The read requests of uploadAction, each an unacknowledged "<k" followed by k rcvByte calls. */
  function ChunksRead(counts: seq<nat>, input: string): (u: Upload)
    ensures |u.written| <= |counts| && u.written == RequestLines(counts[..|u.written|])
    ensures u.outcome.Pass? ==> u.written == RequestLines(counts) && |u.values| == Sum(counts)
    decreases |counts|
  {
    if counts == [] then Upload([], [], input, Pass)
    else
      var before := ChunksRead(counts[..|counts| - 1], input);
      assert counts[..|counts| - 1][..|before.written|] == counts[..|before.written|];
      if before.outcome.Fail? then before
      else
        var k := counts[|counts| - 1];
        var r := BytesRead(k, before.rest);
        assert counts[..|counts|] == counts;
        Upload(before.written + [ReadRequestCmd(k) + "\n"], before.values + r.values, r.rest, r.outcome)
  }

  /** One more request is made only if all before it succeeded. */
  lemma ChunksSnoc(counts: seq<nat>, k: nat, input: string)
    ensures var before := ChunksRead(counts, input);
      var r := BytesRead(k, before.rest);
      ChunksRead(counts + [k], input) ==
        if before.outcome.Fail? then before
        else Upload(before.written + [ReadRequestCmd(k) + "\n"], before.values + r.values, r.rest, r.outcome)
  {
    assert (counts + [k])[..|counts|] == counts;
  }

  /** The request lines for the given counts. */
  function RequestLines(counts: seq<nat>): (r: seq<string>)
    ensures |r| == |counts|
    decreases |counts|
  {
    if counts == [] then [] else RequestLines(counts[..|counts| - 1]) + [ReadRequestCmd(counts[|counts| - 1]) + "\n"]
  }

  /** Once a chunk has failed, no further request is sent. */
  lemma {:induction false} ChunksSticks(counts: seq<nat>, more: seq<nat>, input: string)
    requires ChunksRead(counts, input).outcome.Fail?
    ensures ChunksRead(counts + more, input) == ChunksRead(counts, input)
    decreases |more|
  {
    if more == [] {
      assert counts + more == counts;
    } else {
      var m := more[..|more| - 1];
      ChunksSticks(counts, m, input);
      assert (counts + more)[..|counts + more| - 1] == counts + m;
    }
  }

  /** When the other end answers with the hex of the data, the chunks put together are the data. */
  lemma {:induction false} ChunksReadHex(counts: seq<nat>, data: seq<byte>, tail: string)
    requires Sum(counts) == |data|
    ensures ChunksRead(counts, HexString(data) + tail) == Upload(RequestLines(counts), data, tail, Pass)
    decreases |counts|
  {
    if counts != [] {
      var n := |counts| - 1;
      var k := counts[n];
      var cut := |data| - k;
      var front, back := data[..cut], data[cut..];
      assert front + back == data;
      HexStringAppend(front, back);
      assert HexString(data) + tail == HexString(front) + (HexString(back) + tail);
      ChunksReadHex(counts[..n], front, HexString(back) + tail);
      BytesReadHex(back, tail);
    }
  }

  /** uploadAction (mcard.py:433-445) after the port is open: the "*U" mode command, then the read requests. */
  function UploadExchange(addr: int, size: int, input: string): (u: Upload)
    ensures 0 < |u.written| && u.written[0] == UploadModeCmd(addr) + "\n"
    ensures u.outcome.Pass? ==> |u.values| == (if size <= 0 then 0 else size)
    ensures u.outcome.Pass? ==> u.written == [UploadModeCmd(addr) + "\n"] + RequestLines(ReadRequests(size))
  {
    ReadRequestsSum(size);
    var mode := CommandSent(UploadModeCmd(addr), true, input);
    if mode.outcome.Fail? then Upload(mode.written, [], mode.rest, mode.outcome)
    else
      var chunks := ChunksRead(ReadRequests(size), mode.rest);
      Upload(mode.written + chunks.written, chunks.values, chunks.rest, chunks.outcome)
  }

  /** When the mode command is acknowledged and the data follows as hex, the upload returns the data and requests it in chunks of at most 16. */
  lemma UploadRoundTrip(addr: int, data: seq<byte>, tail: string)
    ensures UploadExchange(addr, |data|, "!" + (HexString(data) + tail)) ==
      Upload([UploadModeCmd(addr) + "\n"] + RequestLines(ReadRequests(|data|)), data, tail, Pass)
  {
    UploadAcked(addr, |data|, HexString(data) + tail);
    ReadRequestsSum(|data|);
    ChunksReadHex(ReadRequests(|data|), data, tail);
  }

  /** Once "*U" is acknowledged, the upload is the read requests on what follows the '!'. */
  lemma UploadAcked(addr: int, size: int, after: string)
    ensures var c := ChunksRead(ReadRequests(size), after);
      UploadExchange(addr, size, "!" + after) == Upload([UploadModeCmd(addr) + "\n"] + c.written, c.values, c.rest, c.outcome)
  {
    Acked(UploadModeCmd(addr), after);
  }

  /** A refused "*U" ends the upload before any request is sent. */
  lemma UploadModeRefused(addr: int, size: int, input: string)
    requires |input| == 0 || input[0] != '!'
    ensures UploadExchange(addr, size, input).written == [UploadModeCmd(addr) + "\n"]
    ensures UploadExchange(addr, size, input).outcome.Fail?
  {
  }
}
