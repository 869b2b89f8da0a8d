/**
 * The server-sent-event side of the streaming routes: how one chunk of a
 * child's stdout or stderr becomes `data:` frames, the final exit-code frame,
 * and the response object that collects the frames until it is ended.
 *
 * The frames are read back with the interpretation rules of the event-stream
 * format (section 9.2.6 of the WHATWG HTML Living Standard, "Interpreting an
 * event stream"), restricted to the `data` field, so that what the subscriber
 * receives can be stated.
 */
module EventStream {
  import opened Common
  import opened JsString

  /** Which output stream of the child a chunk came from. */
  datatype Channel = Stdout | Stderr

  /** How a route turns a chunk into frames. */
  datatype Framing =
    | PerLine     // `/frida/trace` and `/execute-in-terminal`: split(/\r?\n/), one frame per piece
    | WholeChunk  // `/adb/logcat`: the chunk as it is, in one frame

  /** The event data the subscriber should see for a piece: stderr pieces carry an `ERROR: ` tag. */
  function Payload(channel: Channel, piece: string): string {
    match channel
    case Stdout => piece
    case Stderr => "ERROR: " + piece
  }

  /** One frame: a `data` field followed by the blank line that ends the event. */
  function Frame(channel: Channel, piece: string): string {
    "data: " + Payload(channel, piece) + "\n\n"
  }

  function FramesOf(channel: Channel, pieces: seq<string>): (r: seq<string>)
    ensures |r| == |pieces|
    ensures forall i :: 0 <= i < |pieces| ==> r[i] == Frame(channel, pieces[i])
  {
    seq(|pieces|, i requires 0 <= i < |pieces| => Frame(channel, pieces[i]))
  }

  /** The frames one chunk produces, with no carry-over from earlier chunks. */
  function ChunkFrames(framing: Framing, channel: Channel, chunk: string): seq<string> {
    match framing
    case PerLine => FramesOf(channel, SplitLines(chunk))
    case WholeChunk => [Frame(channel, chunk)]
  }

  /** `${code}` for a child's exit code; Node reports `null` when a signal ended it. */
  function ExitCodeText(code: Option<int>): string {
    if code.None? then "null" else IntToString(code.value)
  }

  /** The last frame of a stream, e.g. `data: Frida-trace closed with code 0`. */
  function CloseFrame(closeLabel: string, code: Option<int>): string {
    "data: " + closeLabel + " " + ExitCodeText(code) + "\n\n"
  }

  /** A chunk split per line yields one frame per LF plus one, and no piece carries an LF. */
  lemma PerLineFrameCount(channel: Channel, chunk: string)
    ensures |ChunkFrames(PerLine, channel, chunk)| == CountChar(chunk, '\n') + 1
    ensures forall i :: 0 <= i < |SplitLines(chunk)| ==>
      ChunkFrames(PerLine, channel, chunk)[i] == Frame(channel, SplitLines(chunk)[i]) &&
      '\n' !in SplitLines(chunk)[i]
  {
  }

  /**
   * The HTTP response of a streaming route: the frames written so far, whether
   * `res.end()` has been called, and whether the child was asked to die.
   */
  class SseResponse {
    const framing: Framing
    const closeLabel: string
    var frames: seq<string>
    var ended: bool
    var killRequested: bool

    constructor (framing: Framing, closeLabel: string)
      ensures this.framing == framing && this.closeLabel == closeLabel
      ensures frames == [] && !ended && !killRequested
    {
      this.framing := framing;
      this.closeLabel := closeLabel;
      frames := [];
      ended := false;
      killRequested := false;
    }

    /**
     * A `data` event of the child's stdout or stderr. Once the response has
     * ended, nothing more reaches the subscriber.
     */
    method OnData(channel: Channel, chunk: string)
      modifies this`frames
      ensures old(ended) ==> frames == old(frames)
      ensures !old(ended) ==> frames == old(frames) + ChunkFrames(framing, channel, chunk)
    {
      if ended {
        return;
      }
      match framing
      case WholeChunk =>
        frames := frames + [Frame(channel, chunk)];
      case PerLine =>
        var lines := SplitLines(chunk);
        for i := 0 to |lines|
          invariant frames == old(frames) + FramesOf(channel, lines[..i])
        {
          assert lines[..i + 1] == lines[..i] + [lines[i]];
          frames := frames + [Frame(channel, lines[i])];
        }
        assert lines[..|lines|] == lines;
    }

    /** The child's `close` event: announce the exit code, then end the response. */
    method OnChildClose(code: Option<int>)
      modifies this`frames, this`ended
      ensures ended
      ensures old(ended) ==> frames == old(frames)
      ensures !old(ended) ==> frames == old(frames) + [CloseFrame(closeLabel, code)]
    {
      if !ended {
        frames := frames + [CloseFrame(closeLabel, code)];
      }
      ended := true;
    }

    /** The request's `close` event: kill the child and end the response, writing nothing. */
    method OnClientClose()
      modifies this`ended, this`killRequested
      ensures ended && killRequested
    {
      killRequested := true;
      ended := true;
    }
  }

  /** The bytes on the wire: the frames one after the other. */
  function Wire(frames: seq<string>): string {
    if frames == [] then "" else frames[0] + Wire(frames[1..])
  }

  lemma {:induction false} WireAppend(a: seq<string>, b: seq<string>)
    ensures Wire(a + b) == Wire(a) + Wire(b)
  {
    if a == [] {
      assert a + b == b;
    } else {
      assert (a + b)[1..] == a[1..] + b;
      WireAppend(a[1..], b);
    }
  }

  predicate IsEol(c: char) {
    c == '\r' || c == '\n'
  }

  /** The length of the first line of `s`, up to its CR or LF. */
  function LineLength(s: string): (k: nat)
    ensures k <= |s|
    ensures forall j :: 0 <= j < k ==> !IsEol(s[j])
    ensures k < |s| ==> IsEol(s[k])
  {
    if s == [] || IsEol(s[0]) then 0 else 1 + LineLength(s[1..])
  }

  /**
   * The line sets the `data` field: its name, the text before the first
   * colon (the whole line when it has none), is `data`.
   */
  predicate IsDataField(line: string) {
    line == "data" || (|line| >= 5 && line[..5] == "data:")
  }

  /** The value of a `data` line: after the colon, less one leading space. */
  function DataValue(line: string): string
    requires IsDataField(line)
  {
    if line == "data" then ""
    else
      var v := line[5..];
      if v != "" && v[0] == ' ' then v[1..] else v
  }

  /** The field name of a line is the text before its first colon. */
  lemma DataFieldByFirstColon(line: string)
    ensures var c := IndexOf(line, ":");
      (if c == -1 then line else line[..c]) == "data" <==> IsDataField(line)
    ensures IsDataField(line) && line != "data" ==> IndexOf(line, ":") == 4
  {
    var c := IndexOf(line, ":");
    if line == "data" {
      IncludesChar(line, ':');
    } else if |line| >= 5 && line[..5] == "data:" {
      assert line == "data" + [':'] + line[5..];
      IndexOfCharBefore("data", ':', line[5..]);
    } else if c == 4 {
      assert line[4..5] == ":";
      assert line[..5] == line[..4] + line[4..5];
    }
  }

  /** A non-blank line's effect on the data buffer: only `data` fields add to it. */
  function ProcessLine(line: string, data: string): string {
    if IsDataField(line) then data + DataValue(line) + "\n" else data
  }

  /** The data buffer handed to the subscriber at a blank line: its trailing LF removed. */
  function Dispatched(data: string): seq<string> {
    if data == "" then []
    else if data[|data| - 1] == '\n' then [data[..|data| - 1]]
    else [data]
  }

  /**
   * The event data a subscriber receives from `s`, starting with data buffer
   * `data`: lines end at CRLF, CR or LF; a blank line dispatches the buffer;
   * an unterminated last line is discarded.
   */
  function Interpret(s: string, data: string): seq<string>
    decreases |s|
  {
    var k := LineLength(s);
    if k == |s| then []
    else
      var next := if s[k] == '\r' && k + 1 < |s| && s[k + 1] == '\n' then k + 2 else k + 1;
      if k == 0 then Dispatched(data) + Interpret(s[next..], "")
      else Interpret(s[next..], ProcessLine(s[..k], data))
  }

  lemma {:induction false} LineLengthAfter(a: string, b: string)
    requires forall j :: 0 <= j < |a| ==> !IsEol(a[j])
    ensures LineLength(a + b) == |a| + LineLength(b)
    decreases |a|
  {
    if a != [] {
      assert (a + b)[1..] == a[1..] + b;
      LineLengthAfter(a[1..], b);
    } else {
      assert a + b == b;
    }
  }

  /** One LF-terminated non-blank line is processed into the data buffer. */
  lemma StepLine(line: string, rest: string, data: string)
    requires line != ""
    requires forall j :: 0 <= j < |line| ==> !IsEol(line[j])
    ensures Interpret(line + "\n" + rest, data) == Interpret(rest, ProcessLine(line, data))
  {
    var s := line + "\n" + rest;
    LineAt(line, '\n', rest);
    assert Interpret(s, data) == Interpret(s[|line| + 1..], ProcessLine(s[..|line|], data));
  }

  /** A blank line (a lone LF) dispatches the data buffer. */
  lemma StepBlank(rest: string, data: string)
    ensures Interpret("\n" + rest, data) == Dispatched(data) + Interpret(rest, "")
  {
    assert ("\n" + rest)[1..] == rest;
  }

  /** A `data: ` line appends its value and an LF to the data buffer. */
  lemma DataLine(p: string, data: string)
    ensures ProcessLine("data: " + p, data) == data + p + "\n"
  {
    var line := "data: " + p;
    assert line[..5] == "data:";
    assert line[5..] == " " + p;
  }

  lemma NoEolInDataLine(p: string)
    requires '\r' !in p && '\n' !in p
    ensures forall j :: 0 <= j < |"data: " + p| ==> !IsEol(("data: " + p)[j])
  {
    var line := "data: " + p;
    forall j | 0 <= j < |line| ensures !IsEol(line[j]) {
      if j >= 6 {
        assert line[j] == p[j - 6];
      }
    }
  }

  /** A frame whose payload has no CR or LF delivers exactly that payload as one event. */
  lemma FrameDelivers(channel: Channel, piece: string, t: string)
    requires '\r' !in piece && '\n' !in piece
    ensures Interpret(Frame(channel, piece) + t, "") == [Payload(channel, piece)] + Interpret(t, "")
  {
    var p := Payload(channel, piece);
    assert '\r' !in p && '\n' !in p by {
      if channel.Stderr? {
        assert p == "ERROR: " + piece;
      }
    }
    assert Frame(channel, piece) + t == ("data: " + p) + "\n" + ("\n" + t);
    DataLineLf(p, "\n" + t);
    BlankAfterData(p, t);
  }

  /** A first `data: ` line ended by LF starts the data buffer with its value. */
  lemma DataLineLf(p: string, rest: string)
    requires '\r' !in p && '\n' !in p
    ensures Interpret(("data: " + p) + "\n" + rest, "") == Interpret(rest, p + "\n")
  {
    assert ProcessLine("data: " + p, "") == p + "\n" by {
      DataLine(p, "");
      assert "" + p + "\n" == p + "\n";
    }
    NoEolInDataLine(p);
    StepLine("data: " + p, rest, "");
  }

  /** The blank line after one `data` line dispatches that line's value. */
  lemma BlankAfterData(p: string, t: string)
    ensures Interpret("\n" + t, p + "\n") == [p] + Interpret(t, "")
  {
    StepBlank(t, p + "\n");
    assert (p + "\n")[..|p|] == p;
  }

  /**
   * A run of frames whose pieces have no CR or LF delivers exactly the
   * payloads, in order, one event per frame.
   */
  lemma {:induction false} FramesDeliver(channel: Channel, pieces: seq<string>)
    requires forall i :: 0 <= i < |pieces| ==> '\r' !in pieces[i] && '\n' !in pieces[i]
    ensures Interpret(Wire(FramesOf(channel, pieces)), "") ==
      seq(|pieces|, i requires 0 <= i < |pieces| => Payload(channel, pieces[i]))
    decreases |pieces|
  {
    if pieces != [] {
      var fs := FramesOf(channel, pieces);
      var tail := seq(|pieces| - 1, i requires 0 <= i < |pieces| - 1 => Payload(channel, pieces[1..][i]));
      calc {
        Interpret(Wire(fs), "");
        { assert Wire(fs) == Frame(channel, pieces[0]) + Wire(fs[1..]); }
        Interpret(Frame(channel, pieces[0]) + Wire(fs[1..]), "");
        { FrameDelivers(channel, pieces[0], Wire(fs[1..])); }
        [Payload(channel, pieces[0])] + Interpret(Wire(fs[1..]), "");
        { assert fs[1..] == FramesOf(channel, pieces[1..]); FramesDeliver(channel, pieces[1..]); }
        [Payload(channel, pieces[0])] + tail;
      }
      PayloadsCons(channel, pieces);
    }
  }

  lemma PayloadsCons(channel: Channel, pieces: seq<string>)
    requires pieces != []
    ensures [Payload(channel, pieces[0])] +
        seq(|pieces| - 1, i requires 0 <= i < |pieces| - 1 => Payload(channel, pieces[1..][i])) ==
      seq(|pieces|, i requires 0 <= i < |pieces| => Payload(channel, pieces[i]))
  {
  }

  /**
   * For stdout text without CR, the events of one chunk, joined back with LF,
   * are the chunk itself: per-line framing loses nothing but the line breaks.
   */
  lemma StdoutChunkDelivered(chunk: string)
    requires '\r' !in chunk
    ensures Join(Interpret(Wire(ChunkFrames(PerLine, Stdout, chunk)), ""), "\n") == chunk
  {
    var pieces := SplitLines(chunk);
    SplitLinesRejoin(chunk);
    forall i | 0 <= i < |pieces| ensures '\r' !in pieces[i] && '\n' !in pieces[i] {
      SplitLinesNoCr(chunk, i);
    }
    FramesDeliver(Stdout, pieces);
    assert seq(|pieces|, i requires 0 <= i < |pieces| => Payload(Stdout, pieces[i])) == pieces;
  }

  lemma {:induction false} SplitLinesNoCr(s: string, i: nat)
    requires '\r' !in s
    requires i < |SplitLines(s)|
    ensures '\r' !in SplitLines(s)[i]
    decreases |s|
  {
    var k := IndexOf(s, "\n");
    if k != -1 && i > 0 {
      SplitLinesNoCr(s[k + 1..], i - 1);
    }
  }

  /**
   * Pieces keep a bare CR (split only consumes CRLF and LF), and the
   * subscriber ends a line at a bare CR: the text after it is lost. A
   * progress line `50%\r60%` reaches the browser as `50%`.
   */
  lemma BareCrTruncates()
    ensures SplitLines("50%\r60%") == ["50%\r60%"]
    ensures Interpret(Wire(ChunkFrames(PerLine, Stdout, "50%\r60%")), "") == ["50%"]
  {
    SingleLine("50%\r60%");
    BareCrWire();
    IncludesChar("60%", ':');
    assert "50%\r60%" == "50%" + "\r" + "60%";
    assert "60%" != "data" by {
      assert "60%"[0] != "data"[0];
    }
    BareCrRead("50%", "60%");
  }

  lemma BareCrWire()
    ensures Wire(ChunkFrames(PerLine, Stdout, "50%\r60%")) == Frame(Stdout, "50%\r60%")
  {
    var s := "50%\r60%";
    SingleLine(s);
    var w := Frame(Stdout, s);
    var fs := ChunkFrames(PerLine, Stdout, s);
    assert fs == [w] by {
      assert |fs| == 1 && fs[0] == w;
    }
    assert fs[1..] == [];
  }

  /**
   * A stdout piece `a CR b` is read as the `data` line `a` followed by a line
   * `b` that is not a `data` field: the event carries `a` only.
   */
  lemma BareCrRead(a: string, b: string)
    requires '\r' !in a && '\n' !in a
    requires b != "" && b != "data" && '\r' !in b && '\n' !in b && ':' !in b
    ensures Interpret(Frame(Stdout, a + "\r" + b), "") == [a]
  {
    BareCrFirstLine(a, b);
    BareCrSecondLine(a, b);
  }

  lemma BareCrFirstLine(a: string, b: string)
    requires '\r' !in a && '\n' !in a
    requires b != "" && b[0] != '\n'
    ensures Interpret(Frame(Stdout, a + "\r" + b), "") == Interpret(b + "\n" + "\n", a + "\n")
  {
    CrFrameShape(a, b);
    DataLineCr(a, b + "\n" + "\n");
  }

  /** A first `data: ` line ended by a bare CR starts the data buffer with its value. */
  lemma DataLineCr(a: string, rest: string)
    requires '\r' !in a && '\n' !in a
    requires rest == [] || rest[0] != '\n'
    ensures Interpret(("data: " + a) + "\r" + rest, "") == Interpret(rest, a + "\n")
  {
    assert ProcessLine("data: " + a, "") == a + "\n" by {
      DataLine(a, "");
      assert "" + a + "\n" == a + "\n";
    }
    NoEolInDataLine(a);
    StepLineCr("data: " + a, rest, "");
  }

  lemma CrFrameShape(a: string, b: string)
    requires b != ""
    ensures Frame(Stdout, a + "\r" + b) == ("data: " + a) + "\r" + (b + "\n" + "\n")
    ensures (b + "\n" + "\n")[0] == b[0]
  {
  }

  lemma BareCrSecondLine(a: string, b: string)
    requires b != "" && b != "data" && '\r' !in b && '\n' !in b && ':' !in b
    ensures Interpret(b + "\n" + "\n", a + "\n") == [a]
  {
    var d1 := a + "\n";
    assert !IsDataField(b) by {
      if |b| >= 5 {
        assert b[..5][4] == b[4];
      }
    }
    StepLine(b, "\n", d1);
    assert "\n" == "\n" + "";
    StepBlank("", d1);
    assert d1[..|d1| - 1] == a;
  }

  lemma SingleLine(s: string)
    requires '\n' !in s
    ensures SplitLines(s) == [s]
  {
    IncludesChar(s, '\n');
  }

  /** A line ended by a bare CR is processed like one ended by LF. */
  lemma StepLineCr(line: string, rest: string, data: string)
    requires line != ""
    requires forall j :: 0 <= j < |line| ==> !IsEol(line[j])
    requires rest == [] || rest[0] != '\n'
    ensures Interpret(line + "\r" + rest, data) == Interpret(rest, ProcessLine(line, data))
  {
    var s := line + "\r" + rest;
    LineAt(line, '\r', rest);
    assert |line| + 1 < |s| ==> s[|line| + 1] == rest[0];
    assert Interpret(s, data) == Interpret(s[|line| + 1..], ProcessLine(s[..|line|], data));
  }

  /** The first line of `line + [eol] + rest` is `line`, ended by `eol`. */
  lemma LineAt(line: string, eol: char, rest: string)
    requires forall j :: 0 <= j < |line| ==> !IsEol(line[j])
    requires IsEol(eol)
    ensures var s := line + [eol] + rest;
      LineLength(s) == |line| && s[|line|] == eol && s[..|line|] == line && s[|line| + 1..] == rest
  {
    var s := line + [eol] + rest;
    assert s == line + ([eol] + rest);
    LineLengthAfter(line, [eol] + rest);
    assert LineLength([eol] + rest) == 0;
  }

  /** The close frame delivers its announcement as one event. */
  lemma CloseFrameDelivers(closeLabel: string, code: Option<int>)
    requires '\r' !in closeLabel && '\n' !in closeLabel
    ensures Interpret(CloseFrame(closeLabel, code), "") == [closeLabel + " " + ExitCodeText(code)]
  {
    var text := closeLabel + " " + ExitCodeText(code);
    ExitCodeTextOneLine(code);
    assert '\r' !in text && '\n' !in text;
    assert CloseFrame(closeLabel, code) == Frame(Stdout, text) + "";
    FrameDelivers(Stdout, text, "");
    assert Interpret("", "") == [];
  }

  /** The close announcement of `/frida/trace`. */
  const TraceCloseLabel: string := "Frida-trace closed with code"

  /** The close announcement of `/execute-in-terminal`. */
  const TerminalCloseLabel: string := "Process exited with code"

  /** The close announcement of `/adb/logcat`. */
  const LogcatCloseLabel: string := "Logcat closed with code"

  /** Each streaming route's close frame reaches the subscriber as one event naming the code. */
  lemma RouteCloseFramesDeliver(code: Option<int>)
    ensures Interpret(CloseFrame(TraceCloseLabel, code), "") == [TraceCloseLabel + " " + ExitCodeText(code)]
    ensures Interpret(CloseFrame(TerminalCloseLabel, code), "") == [TerminalCloseLabel + " " + ExitCodeText(code)]
    ensures Interpret(CloseFrame(LogcatCloseLabel, code), "") == [LogcatCloseLabel + " " + ExitCodeText(code)]
  {
    TraceLabelOneLine();
    TerminalLabelOneLine();
    LogcatLabelOneLine();
    CloseFrameDelivers(TraceCloseLabel, code);
    CloseFrameDelivers(TerminalCloseLabel, code);
    CloseFrameDelivers(LogcatCloseLabel, code);
  }

  lemma TraceLabelOneLine() ensures '\r' !in TraceCloseLabel && '\n' !in TraceCloseLabel {}
  lemma TerminalLabelOneLine() ensures '\r' !in TerminalCloseLabel && '\n' !in TerminalCloseLabel {}
  lemma LogcatLabelOneLine() ensures '\r' !in LogcatCloseLabel && '\n' !in LogcatCloseLabel {}

  lemma ExitCodeTextOneLine(code: Option<int>)
    ensures '\r' !in ExitCodeText(code) && '\n' !in ExitCodeText(code)
  {
    if code.Some? && code.value < 0 {
      assert ExitCodeText(code) == "-" + NatToString(-code.value);
    }
  }
}
