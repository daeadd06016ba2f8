/**
 * The loader's actions over one serial link (mcard.py, lines 160-246 and 381-465).
 * The link is a Session: what has been written to the port, the characters the
 * Arduino has sent that are still unread, and whether a port is open. The command
 * line options the actions read are constants of the session.
 */
module Loader {
  import opened Wrappers
  import opened Errors
  import opened Hex
  import opened HexFile
  import opened FileTypes
  import opened Protocol
  import opened Ports
  import opened Text

  /**
   * The port openSerialPort ends up with: the one already open, else --port, else the
   * one pickPort finds (an empty name counts as none). `openable` are the names
   * serial.Serial can open; any other name makes the program stop.
   */
  function OpenedPort(current: Option<string>, portOption: Option<string>, comports: seq<string>, openable: set<string>): (r: Result<string, Error>)
    ensures current.Some? ==> r == Success(current.value)
    ensures r.Success? ==> r.value in openable || current == Some(r.value)
  {
    if current.Some? then Success(current.value)
    else
      var name :=
        if portOption.Some? then Some(portOption.value)
        else match PickedPort(comports)
          case Some(p) => if p == "" then None else Some(p)
          case None => None;
      match name
      case None => Failure(NoPortChosen)
      case Some(n) => if n in openable then Success(n) else Failure(PortOpenFailed(n))
  }

  /** Opening a second time keeps the port chosen the first time. */
  lemma OpenTwice(current: Option<string>, portOption: Option<string>, comports: seq<string>, openable: set<string>)
    requires OpenedPort(current, portOption, comports, openable).Success?
    ensures var p := OpenedPort(current, portOption, comports, openable).value;
      OpenedPort(Some(p), portOption, comports, openable) == Success(p)
  {
  }

  /** Without --port, a port is chosen exactly when pickPort finds one that can be chosen. */
  lemma OpenedPortPicked(comports: seq<string>, openable: set<string>)
    ensures OpenedPort(None, None, comports, openable).Success? <==>
      PickedPort(comports).Some? && PickedPort(comports).value != "" && PickedPort(comports).value in openable
    ensures PickedPort(comports).None? ==> OpenedPort(None, None, comports, openable) == Failure(NoPortChosen)
  {
  }

  /** An exchange as seen from the port: with --noaction, nothing is written or read. */
  function Quiet(noaction: bool, e: Exchange, input: string): Exchange {
    if noaction then Exchange([], input, Pass) else e
  }

  /** How uploadAction ends: an error stops it, otherwise exportImage decides. */
  function UploadResult(u: Upload, format: string): Result<Option<Exported>, Error> {
    if u.outcome.Fail? then Failure(u.outcome.error)
    else match ExportedImage(format, u.values)
      case Failure(e) => Failure(e)
      case Success(x) => Success(Some(x))
  }

  /**
   * An upload whose replies are '!' and then the hex of some bytes, exported with --format hex,
   * is the text dataToHexStrings makes of those bytes, which importHex reads back as them.
   */
  lemma UploadHexExport(addr: int, data: seq<byte>, tail: string)
    ensures var r := UploadResult(UploadExchange(addr, |data|, "!" + (HexString(data) + tail)), "hex");
      r == Success(Some(Text(HexText(data)))) && LinesBytes(ReadLines(r.value.value.text)) == data
  {
    var u := UploadExchange(addr, |data|, "!" + (HexString(data) + tail));
    UploadRoundTrip(addr, data, tail);
    assert u.outcome == Pass && u.values == data;
    assert ExportedImage("hex", data) == Success(Text(HexText(data)));
    assert UploadResult(u, "hex") == Success(Some(Text(HexText(data))));
    HexTextRoundTrip(data);
  }

  /** The port went from (t0, i0) to (t, rest) by sending the acknowledged commands cmds, with outcome o. */
  ghost predicate SentFrom(noaction: bool, cmds: seq<string>, t0: seq<string>, i0: string, t: seq<string>, rest: string, o: Outcome<Error>) {
    var e := Quiet(noaction, CommandsSent(cmds, i0), i0);
    t == t0 + e.written && rest == e.rest && o == e.outcome
  }

  /** Nothing sent yet. */
  lemma SentNothing(noaction: bool, t0: seq<string>, i0: string)
    ensures SentFrom(noaction, [], t0, i0, t0, i0, Pass)
  {
    assert t0 + [] == t0;
  }

  /** Sending one more command after all before it were accepted. */
  lemma SentMore(noaction: bool, cmds: seq<string>, c: string, t0: seq<string>, i0: string,
                 t1: seq<string>, i1: string, t2: seq<string>, i2: string, o: Outcome<Error>)
    requires SentFrom(noaction, cmds, t0, i0, t1, i1, Pass)
    requires var q := Quiet(noaction, CommandSent(c, true, i1), i1); t2 == t1 + q.written && i2 == q.rest && o == q.outcome
    ensures SentFrom(noaction, cmds + [c], t0, i0, t2, i2, o)
  {
    CommandsSentSnoc(cmds, c, i0);
    if !noaction {
      AppendAssoc(t0, CommandsSent(cmds, i0).written, CommandSent(c, true, i1).written);
    }
  }

  /** After a refused command nothing more is sent. */
  lemma SentStop(noaction: bool, cmds: seq<string>, more: seq<string>, t0: seq<string>, i0: string,
                 t: seq<string>, rest: string, o: Outcome<Error>)
    requires SentFrom(noaction, cmds, t0, i0, t, rest, o) && o.Fail?
    ensures SentFrom(noaction, cmds + more, t0, i0, t, rest, o)
  {
    FailureSticks(cmds, more, i0);
  }

  /**
   * The state of downloadAction's loop before data[i]: k full lines, ending at start, have
   * been sent, and buf holds the pairs of the bytes since, fewer than MAX_HEX_PAIRS of them.
   */
  ghost predicate Buffered(data: seq<byte>, k: nat, start: nat, i: nat, buf: string, bytes: nat) {
    start == 16 * k && start + bytes == i <= |data| && bytes < MaxHexPairs && buf == HexString(data[start..i])
  }

  /** A full line of sixteen pairs sent after the first k lines, which end at start: the lines up to end have been sent. */
  lemma DownloadLine(noaction: bool, prefix: seq<string>, data: seq<byte>, k: nat, start: nat, end: nat, line: string,
                     t0: seq<string>, i0: string, t: seq<string>, rest: string, o: Outcome<Error>)
    requires start == 16 * k && end == start + 16 <= |data| && line == HexString(data[start..end])
    requires SentFrom(noaction, (prefix + DataLines(data[..start])) + [line], t0, i0, t, rest, o)
    ensures SentFrom(noaction, prefix + DataLines(data[..end]), t0, i0, t, rest, o)
  {
    DataLinesNextLine(data, k, start, end);
    AppendAssoc(prefix, DataLines(data[..start]), [line]);
  }

  /** A refused line after the first k lines, which end at start, ends the download: nothing more of the image is sent. */
  lemma DownloadRefused(noaction: bool, prefix: seq<string>, data: seq<byte>, k: nat, start: nat,
                        t0: seq<string>, i0: string, t: seq<string>, rest: string, o: Outcome<Error>)
    requires start == 16 * k <= |data| && o.Fail?
    requires SentFrom(noaction, prefix + DataLines(data[..start]), t0, i0, t, rest, o)
    ensures SentFrom(noaction, prefix + DataLines(data), t0, i0, t, rest, o)
  {
    var p, q := data[..start], data[start..];
    DataLinesAppend(p, q, k);
    Split(data, start);
    SentStop(noaction, prefix + DataLines(p), DataLines(q), t0, i0, t, rest, o);
    AppendAssoc(prefix, DataLines(p), DataLines(q));
  }

  /** After the full lines, which end at start, the remaining bytes go as one last shorter line. */
  lemma DownloadLast(noaction: bool, prefix: seq<string>, data: seq<byte>, k: nat, start: nat, line: string,
                     t0: seq<string>, i0: string, t: seq<string>, rest: string, o: Outcome<Error>)
    requires start == 16 * k < |data| < start + 16 && line == HexString(data[start..|data|])
    requires SentFrom(noaction, (prefix + DataLines(data[..start])) + [line], t0, i0, t, rest, o)
    ensures SentFrom(noaction, prefix + DataLines(data), t0, i0, t, rest, o)
  {
    DataLinesLastLine(data, k, start);
    AppendAssoc(prefix, DataLines(data[..start]), [line]);
  }

  /**
   * The port went from (t1, i1) to (t, rest) by the read requests counts, with outcome o;
   * when they all succeeded, values are the bytes read.
   */
  ghost predicate ReadFrom(counts: seq<nat>, t1: seq<string>, i1: string, t: seq<string>, rest: string, values: seq<byte>, o: Outcome<Error>) {
    var c := ChunksRead(counts, i1);
    t == t1 + c.written && rest == c.rest && o == c.outcome && (o.Pass? ==> values == c.values)
  }

  /** One more read request after all before it succeeded. */
  lemma ReadMore(counts: seq<nat>, k: nat, t1: seq<string>, i1: string, ta: seq<string>, ia: string, va: seq<byte>,
                 tb: seq<string>, ib: string, bytes: seq<byte>, o: Outcome<Error>)
    requires ReadFrom(counts, t1, i1, ta, ia, va, Pass)
    requires var r := BytesRead(k, ia); tb == ta + [ReadRequestCmd(k) + "\n"] && ib == r.rest && o == r.outcome && bytes == r.values
    ensures ReadFrom(counts + [k], t1, i1, tb, ib, va + bytes, o)
  {
    ChunksSnoc(counts, k, i1);
    AppendAssoc(t1, ChunksRead(counts, i1).written, [ReadRequestCmd(k) + "\n"]);
  }

  /** After a failed request nothing more is sent. */
  lemma ReadStop(counts: seq<nat>, more: seq<nat>, t1: seq<string>, i1: string, t: seq<string>, rest: string, values: seq<byte>, o: Outcome<Error>)
    requires ReadFrom(counts, t1, i1, t, rest, values, o) && o.Fail?
    ensures ReadFrom(counts + more, t1, i1, t, rest, values, o)
  {
    ChunksSticks(counts, more, i1);
  }

  /** `for b in bytes: bb.append(b)`: the bytes of a chunk added, in order, after those already read. */
  method AppendEach(bb: seq<byte>, bytes: seq<byte>) returns (r: seq<byte>)
    ensures r == bb + bytes
  {
    r := bb;
    for j := 0 to |bytes|
      invariant r == bb + bytes[..j]
    {
      r := r + [bytes[j]];
    }
    assert bytes[..|bytes|] == bytes;
  }

  /** The mode command, then the read requests: uploadAction once the port is open. */
  lemma UploadFrom(addr: int, size: int, t0: seq<string>, i0: string, t1: seq<string>, i1: string,
                   t: seq<string>, rest: string, values: seq<byte>, o: Outcome<Error>)
    requires var m := CommandSent(UploadModeCmd(addr), true, i0); t1 == t0 + m.written && i1 == m.rest && m.outcome == Pass
    requires ReadFrom(ReadRequests(size), t1, i1, t, rest, values, o)
    ensures var u := UploadExchange(addr, size, i0);
      t == t0 + u.written && rest == u.rest && o == u.outcome && (o.Pass? ==> values == u.values)
  {
    var m := CommandSent(UploadModeCmd(addr), true, i0);
    var c := ChunksRead(ReadRequests(size), i1);
    assert UploadExchange(addr, size, i0) == Upload(m.written + c.written, c.values, c.rest, c.outcome);
    AppendAssoc(t0, m.written, c.written);
  }

  class Session {
    /** --noaction: simulate, talking to no port. */
    const noaction: bool
    /** --addr */
    const addr: int
    /** --size */
    const size: int
    /** --format */
    const format: string
    /** --port */
    const portOption: Option<string>
    /** The names serial.tools.list_ports.comports() lists. */
    const comports: seq<string>
    /** The names serial.Serial can open. */
    const openable: set<string>

    /** serialPort: None until a port is open. */
    var port: Option<string>
    /** Everything written to the port, one entry per write. */
    var trace: seq<string>
    /** What the Arduino has sent that has not been read yet. */
    var input: string

    /** Nothing is chosen under --noaction, and nothing is written before a port is open. */
    ghost predicate Valid()
      reads this
    {
      (noaction ==> port.None?) && (port.None? ==> trace == [])
    }

    constructor (noaction: bool, addr: int, size: int, format: string, portOption: Option<string>,
                 comports: seq<string>, openable: set<string>, replies: string)
      ensures Valid()
      ensures this.noaction == noaction && this.addr == addr && this.size == size && this.format == format
      ensures this.portOption == portOption && this.comports == comports && this.openable == openable
      ensures port == None && trace == [] && input == replies
    {
      this.noaction := noaction;
      this.addr := addr;
      this.size := size;
      this.format := format;
      this.portOption := portOption;
      this.comports := comports;
      this.openable := openable;
      port := None;
      trace := [];
      input := replies;
    }

    /** serialPort.read(n). */
    method Read(n: nat) returns (s: string)
      modifies this
      ensures s == Taken(old(input), n) && input == Left(old(input), n)
      ensures port == old(port) && trace == old(trace)
    {
      s := Taken(input, n);
      input := Left(input, n);
    }

    /** _openSerialPort (mcard.py:142-154); the reset delay is not modelled. */
    method OpenNamedPort(name: string) returns (o: Outcome<Error>)
      requires Valid() && !noaction && port.None?
      modifies this
      ensures Valid() && trace == old(trace) && input == old(input)
      ensures name in openable ==> port == Some(name) && o == Pass
      ensures name !in openable ==> port == old(port) && o == Fail(PortOpenFailed(name))
    {
      if name in openable {
        port := Some(name);
        o := Pass;
      } else {
        o := Fail(PortOpenFailed(name));
      }
    }

    /** openSerialPort (mcard.py:160-172): does nothing when a port is already open. */
    method OpenSerialPort() returns (o: Outcome<Error>)
      requires Valid() && !noaction
      modifies this
      ensures Valid() && trace == old(trace) && input == old(input)
      ensures var r := OpenedPort(old(port), portOption, comports, openable);
        (r.Success? ==> port == Some(r.value) && o == Pass) &&
        (r.Failure? ==> port == old(port) && o == Fail(r.error))
    {
      if port.Some? {
        return Pass;
      }
      if portOption.Some? {
        o := OpenNamedPort(portOption.value);
      } else {
        var picked := PickPort(comports);
        if picked.None? || picked.value == "" {
          return Fail(NoPortChosen);
        }
        o := OpenNamedPort(picked.value);
      }
    }

    /** sendCmd (mcard.py:180-193); the delay after each command is not modelled. */
    method SendCmd(cmd: string, ack: bool) returns (o: Outcome<Error>)
      requires Valid() && (noaction || port.Some?)
      modifies this
      ensures Valid() && port == old(port)
      ensures var e := Quiet(noaction, CommandSent(cmd, ack, old(input)), old(input));
        trace == old(trace) + e.written && input == e.rest && o == e.outcome
    {
      if noaction {
        assert trace == trace + [];
        return Pass;
      }
      trace := trace + [cmd + "\n"];
      o := Pass;
      if ack {
        var b := Read(1);
        if b == "!" {
        } else if b == "#" {
          o := Fail(DeviceReportedError(cmd));
        } else {
          o := Fail(AckTimeout(cmd));
        }
      }
    }

    /** rcvByte (mcard.py:197-202): two characters parsed by int(s, 16). */
    method RcvByte() returns (r: Result<int, Error>)
      requires Valid() && port.Some?
      modifies this
      ensures Valid() && port == old(port) && trace == old(trace)
      ensures input == Left(old(input), 2) && r == Received(Taken(old(input), 2))
    {
      var s := Read(2);
      var v := ParseField(s);
      if v.None? {
        return Failure(MalformedByteRead(s));
      }
      r := Success(v.value);
    }

    /** setDownloadMode (mcard.py:206-208). */
    method SetDownloadMode(a: int) returns (o: Outcome<Error>)
      requires Valid() && (noaction || port.Some?)
      modifies this
      ensures Valid() && port == old(port)
      ensures var e := Quiet(noaction, CommandSent(DownloadModeCmd(a), true, old(input)), old(input));
        trace == old(trace) + e.written && input == e.rest && o == e.outcome
    {
      o := SendCmd(DownloadModeCmd(a), true);
    }

    /** setUploadMode (mcard.py:211-213). */
    method SetUploadMode(a: int) returns (o: Outcome<Error>)
      requires Valid() && (noaction || port.Some?)
      modifies this
      ensures Valid() && port == old(port)
      ensures var e := Quiet(noaction, CommandSent(UploadModeCmd(a), true, old(input)), old(input));
        trace == old(trace) + e.written && input == e.rest && o == e.outcome
    {
      o := SendCmd(UploadModeCmd(a), true);
    }

    /** setResetMode (mcard.py:219-221). */
    method SetResetMode() returns (o: Outcome<Error>)
      requires Valid() && (noaction || port.Some?)
      modifies this
      ensures Valid() && port == old(port)
      ensures var e := Quiet(noaction, CommandSent(ResetCmd, true, old(input)), old(input));
        trace == old(trace) + e.written && input == e.rest && o == e.outcome
    {
      o := SendCmd(ResetCmd, true);
    }

    /** setRunMode (mcard.py:227-229). */
    method SetRunMode() returns (o: Outcome<Error>)
      requires Valid() && (noaction || port.Some?)
      modifies this
      ensures Valid() && port == old(port)
      ensures var e := Quiet(noaction, CommandSent(RunCmd, true, old(input)), old(input));
        trace == old(trace) + e.written && input == e.rest && o == e.outcome
    {
      o := SendCmd(RunCmd, true);
    }

    /** runAction (mcard.py:463-465): "*C" then "*R", the second only if the first was accepted. */
    method RunAction() returns (o: Outcome<Error>)
      requires Valid() && (noaction || port.Some?)
      modifies this
      ensures Valid() && port == old(port)
      ensures var e := Quiet(noaction, CommandsSent([ResetCmd, RunCmd], old(input)), old(input));
        trace == old(trace) + e.written && input == e.rest && o == e.outcome
    {
      TwoCommands(ResetCmd, RunCmd, input);
      o := SetResetMode();
      if o.Fail? {
        return;
      }
      o := SetRunMode();
    }

    /** readDataBytes (mcard.py:240-246): an unacknowledged "<count" and count rcvByte calls. */
    method ReadDataBytes(count: nat) returns (o: Outcome<Error>, bytes: seq<byte>)
      requires Valid() && port.Some?
      modifies this
      ensures Valid() && port == old(port)
      ensures var r := BytesRead(count, old(input));
        trace == old(trace) + [ReadRequestCmd(count) + "\n"] && input == r.rest && o == r.outcome && bytes == r.values
    {
      var _ := SendCmd(ReadRequestCmd(count), false);
      ghost var start := input;
      bytes := [];
      for i := 0 to count
        invariant Valid() && port == old(port)
        invariant trace == old(trace) + [ReadRequestCmd(count) + "\n"]
        invariant BytesRead(i, start) == Reading(bytes, input, Pass)
      {
        ghost var before := input;
        var b := RcvByte();
        BytesReadNext(i, start, bytes, before, b);
        if b.Failure? {
          BytesReadSticks(i + 1, count, start);
          return Fail(b.error), bytes;
        }
        if !(0 <= b.value < 256) {
          BytesReadSticks(i + 1, count, start);
          return Fail(ByteOutOfRange(b.value)), bytes;
        }
        bytes := bytes + [b.value];
      }
      o := Pass;
    }

    /** sendCmd of one more acknowledged command, after all before it were accepted. */
    method SendLine(ghost cmds: seq<string>, line: string, ghost t0: seq<string>, ghost i0: string) returns (o: Outcome<Error>)
      requires Valid() && (noaction || port.Some?)
      requires SentFrom(noaction, cmds, t0, i0, trace, input, Pass)
      modifies this
      ensures Valid() && port == old(port)
      ensures SentFrom(noaction, cmds + [line], t0, i0, trace, input, o)
    {
      ghost var t1, i1 := trace, input;
      o := SendCmd(line, true);
      SentMore(noaction, cmds, line, t0, i0, t1, i1, trace, input, o);
    }

    /** downloadAction's commands for an image: "*D" with --addr, then lines of at most MAX_HEX_PAIRS pairs (mcard.py:395-411). */
    method DownloadImage(data: seq<byte>) returns (o: Outcome<Error>)
      requires Valid() && (noaction || port.Some?)
      modifies this
      ensures Valid() && port == old(port)
      ensures SentFrom(noaction, DownloadCommands(addr, data), old(trace), old(input), trace, input, o)
    {
      ghost var t0, i0 := trace, input;
      ghost var mode := [DownloadModeCmd(addr)];
      SentNothing(noaction, t0, i0);
      assert [] + mode == mode;
      o := SendLine([], DownloadModeCmd(addr), t0, i0);
      if o.Fail? {
        SentStop(noaction, mode, DataLines(data), t0, i0, trace, input, o);
        return;
      }
      o := SendDataLines(mode, data, t0, i0);
    }

    /** The sendCmd of a full line of the image, after the lines of its first start = 16 * k bytes. */
    method SendFullLine(ghost prefix: seq<string>, data: seq<byte>, ghost k: nat, ghost start: nat, ghost end: nat, line: string,
                        ghost t0: seq<string>, ghost i0: string) returns (o: Outcome<Error>)
      requires Valid() && (noaction || port.Some?)
      requires start == 16 * k && end == start + 16 <= |data| && line == HexString(data[start..end])
      requires SentFrom(noaction, prefix + DataLines(data[..start]), t0, i0, trace, input, Pass)
      modifies this
      ensures Valid() && port == old(port)
      ensures o.Pass? ==> SentFrom(noaction, prefix + DataLines(data[..end]), t0, i0, trace, input, Pass)
      ensures o.Fail? ==> SentFrom(noaction, prefix + DataLines(data), t0, i0, trace, input, o)
    {
      o := SendLine(prefix + DataLines(data[..start]), line, t0, i0);
      DownloadLine(noaction, prefix, data, k, start, end, line, t0, i0, trace, input, o);
      if o.Fail? {
        DownloadRefused(noaction, prefix, data, k + 1, end, t0, i0, trace, input, o);
      }
    }

    /** Progress of the download loop: the lines of data[..start] sent and acknowledged, the pairs of data[start..i] waiting in buf. */
    ghost predicate Sending(prefix: seq<string>, data: seq<byte>, i: nat, buf: string, bytes: nat, k: nat, start: nat,
                            t0: seq<string>, i0: string)
      reads this
    {
      Buffered(data, k, start, i, buf, bytes) && SentFrom(noaction, prefix + DataLines(data[..start]), t0, i0, trace, input, Pass)
    }

    /** One pass of downloadAction's loop (mcard.py:402-408): "%02X" of data[i] added to buf, which is sent once it holds MAX_HEX_PAIRS pairs. */
    method AddByte(ghost prefix: seq<string>, data: seq<byte>, i: nat, buf: string, bytes: nat, ghost k: nat, ghost start: nat,
                   ghost t0: seq<string>, ghost i0: string)
      returns (o: Outcome<Error>, buf': string, bytes': nat, ghost k': nat, ghost start': nat)
      requires Valid() && (noaction || port.Some?)
      requires i < |data| && Sending(prefix, data, i, buf, bytes, k, start, t0, i0)
      modifies this
      ensures Valid() && port == old(port)
      ensures o.Pass? ==> Sending(prefix, data, i + 1, buf', bytes', k', start', t0, i0)
      ensures o.Fail? ==> SentFrom(noaction, prefix + DataLines(data), t0, i0, trace, input, o)
    {
      ghost var sent := prefix + DataLines(data[..start]);
      assert Buffered(data, k, start, i, buf, bytes) && SentFrom(noaction, sent, t0, i0, trace, input, Pass);
      PairStep(data, start, i);
      buf' := buf + HexPair(data[i]);
      bytes' := bytes + 1;
      k', start' := k, start;
      o := Pass;
      assert buf' == HexString(data[start..i + 1]);
      if bytes' >= MaxHexPairs {
        assert i + 1 == start + 16;
        o := SendFullLine(prefix, data, k, start, i + 1, buf', t0, i0);
        if o.Fail? {
          return;
        }
        HexStringEmpty(data, i + 1);
        buf' := "";
        bytes' := 0;
        k', start' := k + 1, i + 1;
      }
    }

    /** The loop of downloadAction (mcard.py:398-411): "%02X" per byte, a line sent every MAX_HEX_PAIRS bytes and one for what is left. */
    method SendDataLines(ghost prefix: seq<string>, data: seq<byte>, ghost t0: seq<string>, ghost i0: string) returns (o: Outcome<Error>)
      requires Valid() && (noaction || port.Some?)
      requires SentFrom(noaction, prefix, t0, i0, trace, input, Pass)
      modifies this
      ensures Valid() && port == old(port)
      ensures SentFrom(noaction, prefix + DataLines(data), t0, i0, trace, input, o)
    {
      assert data[..0] == [] && prefix + DataLines([]) == prefix;
      var buf := "";
      var bytes: nat := 0;
      ghost var k: nat := 0;
      ghost var start: nat := 0;
      HexStringEmpty(data, 0);
      for i := 0 to |data|
        invariant Valid() && port == old(port)
        invariant Sending(prefix, data, i, buf, bytes, k, start, t0, i0)
      {
        o, buf, bytes, k, start := AddByte(prefix, data, i, buf, bytes, k, start, t0, i0);
        if o.Fail? {
          return;
        }
      }
      o := SendRest(prefix, data, buf, bytes, k, start, t0, i0);
    }

    /** After the loop (mcard.py:410-411): the pairs of a final partial line, if any, go out as one more line. */
    method SendRest(ghost prefix: seq<string>, data: seq<byte>, buf: string, bytes: nat, ghost k: nat, ghost start: nat,
                    ghost t0: seq<string>, ghost i0: string) returns (o: Outcome<Error>)
      requires Valid() && (noaction || port.Some?)
      requires Sending(prefix, data, |data|, buf, bytes, k, start, t0, i0)
      modifies this
      ensures Valid() && port == old(port)
      ensures SentFrom(noaction, prefix + DataLines(data), t0, i0, trace, input, o)
    {
      o := Pass;
      if bytes > 0 {
        o := SendLine(prefix + DataLines(data[..start]), buf, t0, i0);
        DownloadLast(noaction, prefix, data, k, start, buf, t0, i0, trace, input, o);
      } else {
        assert data[..start] == data;
      }
    }

    /** What downloadAction did once the port question was settled: nothing for a file of unknown type, else the commands of the image. */
    ghost predicate Downloaded(imported: Result<Loaded, Error>, decoded: seq<byte>, t0: seq<string>, i0: string, o: Outcome<Error>)
      reads this
    {
      match imported
      case Failure(e) => trace == t0 && input == i0 && o == Fail(e)
      case Success(l) => SentFrom(noaction, DownloadCommands(addr, ImageData(l, decoded)), t0, i0, trace, input, o)
    }

    /**
     * downloadAction (mcard.py:381-414): open the port (unless --noaction), import the file,
     * then send the image. `decoded` is what bincopy's as_binary() returns for a file it decoded.
     */
    method DownloadAction(filename: string, lines: seq<string>, decoded: seq<byte>) returns (o: Outcome<Error>)
      requires Valid()
      modifies this
      ensures Valid()
      ensures noaction ==> port == old(port)
      ensures var chosen := OpenedPort(old(port), portOption, comports, openable);
        !noaction && chosen.Failure? ==> port == old(port) && trace == old(trace) && input == old(input) && o == Fail(chosen.error)
      ensures var chosen := OpenedPort(old(port), portOption, comports, openable);
        !noaction && chosen.Success? ==> port == Some(chosen.value)
      ensures noaction || OpenedPort(old(port), portOption, comports, openable).Success? ==>
        Downloaded(Imported(filename, lines), decoded, old(trace), old(input), o)
    {
      if !noaction {
        o := OpenSerialPort();
        if o.Fail? {
          return;
        }
      }
      var loaded := ImportFile(filename, lines);
      if loaded.Failure? {
        return Fail(loaded.error);
      }
      o := DownloadImage(ImageData(loaded.value, decoded));
    }

    /** One pass of uploadAction's loop: readDataBytes(k) for request n, then each byte appended to bb (mcard.py:439-445). */
    method ReadChunk(ghost counts: seq<nat>, ghost n: nat, k: nat, ghost t1: seq<string>, ghost i1: string, bb: seq<byte>) returns (o: Outcome<Error>, bb': seq<byte>)
      requires Valid() && port.Some?
      requires n < |counts| && counts[n] == k
      requires ReadFrom(counts[..n], t1, i1, trace, input, bb, Pass)
      modifies this
      ensures Valid() && port == old(port)
      ensures o.Pass? ==> ReadFrom(counts[..n + 1], t1, i1, trace, input, bb', o)
      ensures o.Fail? ==> ReadFrom(counts, t1, i1, trace, input, bb', o)
    {
      ghost var ta, ia := trace, input;
      var bytes;
      o, bytes := ReadDataBytes(k);
      ReadMore(counts[..n], k, t1, i1, ta, ia, bb, trace, input, bytes, o);
      assert counts[..n] + [k] == counts[..n + 1];
      if o.Fail? {
        ReadStop(counts[..n + 1], counts[n + 1..], t1, i1, trace, input, bb + bytes, o);
        Split(counts, n + 1);
        return o, bb;
      }
      bb' := AppendEach(bb, bytes);
    }

    /** uploadAction's read loop (mcard.py:435-445): requests of at most MAX_HEX_PAIRS bytes until --size are read. */
    method ReadImage() returns (o: Outcome<Error>, bb: seq<byte>)
      requires Valid() && port.Some?
      modifies this
      ensures Valid() && port == old(port)
      ensures ReadFrom(ReadRequests(size), old(trace), old(input), trace, input, bb, o)
    {
      ghost var t1, i1 := trace, input;
      ghost var counts := ReadRequests(size);
      bb := [];
      var remaining := size;
      ghost var n: nat := 0;
      assert t1 + [] == t1 && counts[..0] == [];
      ReadRequestsAt(size, 0);
      while remaining > 0
        invariant remaining > 0 ==> remaining == size - 16 * n
        invariant n <= |counts| && (n < |counts| <==> remaining > 0)
        invariant Valid() && port == old(port)
        invariant ReadFrom(counts[..n], t1, i1, trace, input, bb, Pass)
        decreases remaining
      {
        var k: nat := remaining;
        if k > MaxHexPairs {
          k := MaxHexPairs;
        }
        ReadRequestsAt(size, n);
        ReadRequestsAt(size, n + 1);
        o, bb := ReadChunk(counts, n, k, t1, i1, bb);
        if o.Fail? {
          return;
        }
        remaining := remaining - k;
        n := n + 1;
      }
      assert counts[..n] == counts;
      o := Pass;
    }

    /**
     * uploadAction (mcard.py:421-459): nothing at all under --noaction; otherwise open the
     * port, send "*U" with --addr, read --size bytes and export them in --format (what
     * exportImage writes is the result).
     */
    method UploadAction() returns (r: Result<Option<Exported>, Error>)
      requires Valid()
      modifies this
      ensures Valid()
      ensures noaction ==> port == old(port) && trace == old(trace) && input == old(input) && r == Success(None)
      ensures var chosen := OpenedPort(old(port), portOption, comports, openable);
        !noaction && chosen.Failure? ==> port == old(port) && trace == old(trace) && input == old(input) && r == Failure(chosen.error)
      ensures var chosen := OpenedPort(old(port), portOption, comports, openable);
        !noaction && chosen.Success? ==> (port == Some(chosen.value) &&
          var u := UploadExchange(addr, size, old(input));
          trace == old(trace) + u.written && input == u.rest && r == UploadResult(u, format))
    {
      if noaction {
        return Success(None);
      }
      var o := OpenSerialPort();
      if o.Fail? {
        return Failure(o.error);
      }
      ghost var t0, i0 := trace, input;
      o := SetUploadMode(addr);
      if o.Fail? {
        return Failure(o.error);
      }
      ghost var t1, i1 := trace, input;
      var bb;
      o, bb := ReadImage();
      UploadFrom(addr, size, t0, i0, t1, i1, trace, input, bb, o);
      if o.Fail? {
        return Failure(o.error);
      }
      var x := ExportImage(format, bb);
      if x.Failure? {
        return Failure(x.error);
      }
      r := Success(Some(x.value));
    }
  }
}
