/**
 * The decision logic of the `/frida` routes: the `frida-trace` argument
 * vector, the readiness check of `/frida/trace` (already running, else launch
 * the installed app, else 404), and the recovery of the JSON payload that
 * `/frida/methods` reads between two sentinel markers.
 *
 * Every external call is an input: a query's settled promise (from
 * `CommandRun`), a decoder standing for `JSON.parse` of `frida-ps -j` output,
 * what `exec` gave for the launch, and the events of the `frida` child.
 */
module FridaRoutes {
  import opened Common
  import opened JsString
  import opened CommandRun
  import opened AdbExec

  /** One record of `frida-ps -j` output; either field may be missing. */
  datatype ProcessRecord = ProcessRecord(name: Option<string>, identifier: Option<string>)

  /** A command the route issues, in the order it issues them. */
  datatype Command =
    | Spawn(program: string, args: seq<string>)
    | AdbShell(line: string)   // `exec` of a shell line through `runAdbCommand`

  /** `frida-ps -Ua -j`: running applications. */
  const RunningQuery: Command := Spawn("frida-ps", ["-Ua", "-j"])

  /** `frida-ps -Uai -j`: installed applications, with identifiers. */
  const InstalledQuery: Command := Spawn("frida-ps", ["-Uai", "-j"])

  /** The `frida-trace` argument vector: `-U -n <process>`, then `-j <filter>` when a filter is given. */
  method BuildTraceArgs(process: string, filter: Option<string>) returns (args: seq<string>)
    ensures |args| == if Truthy(filter) then 5 else 3
    ensures args[..3] == ["-U", "-n", process]
    ensures Truthy(filter) ==> args[3..] == ["-j", filter.value]
  {
    args := ["-U", "-n", process];
    if Truthy(filter) {
      args := args + ["-j", filter.value];
    }
  }

  /** `c` spawns `frida-trace -U -n <process>`, followed by `-j <filter>` exactly when a filter is given. */
  predicate IsTracer(c: Command, process: string, filter: Option<string>) {
    c.Spawn? && c.program == "frida-trace" &&
    |c.args| == (if Truthy(filter) then 5 else 3) &&
    c.args[..3] == ["-U", "-n", process] &&
    (Truthy(filter) ==> c.args[3..] == ["-j", filter.value])
  }

  /** `records.some(p => p.name === process)`. */
  predicate IsRunning(records: seq<ProcessRecord>, process: string) {
    exists i :: 0 <= i < |records| && records[i].name == Some(process)
  }

  /** `records[i]` is the first record named `process`. */
  predicate FirstMatchAt(records: seq<ProcessRecord>, process: string, i: int) {
    0 <= i < |records| && records[i].name == Some(process) &&
    forall j :: 0 <= j < i ==> records[j].name != Some(process)
  }

  /** `records.find(p => p.name === process)`. */
  function FindByName(records: seq<ProcessRecord>, process: string): (r: Option<ProcessRecord>)
    ensures r.None? <==> !IsRunning(records, process)
    ensures r.Some? ==> exists i :: FirstMatchAt(records, process, i) && records[i] == r.value
  {
    if records == [] then None
    else if records[0].name == Some(process) then
      assert FirstMatchAt(records, process, 0);
      Some(records[0])
    else
      var r := FindByName(records[1..], process);
      assert r.None? <==> !IsRunning(records, process) by {
        if IsRunning(records, process) {
          var i :| 0 <= i < |records| && records[i].name == Some(process);
          assert records[1..][i - 1] == records[i];
        }
      }
      assert r.Some? ==> exists i :: FirstMatchAt(records, process, i) && records[i] == r.value by {
        if r.Some? {
          var i :| FirstMatchAt(records[1..], process, i) && records[1..][i] == r.value;
          forall j | 1 <= j < i + 1 ensures records[j].name != Some(process) {
            assert records[j] == records[1..][j - 1];
          }
          assert FirstMatchAt(records, process, i + 1);
        }
      }
      r
  }

  /** A `frida-ps` query whose promise settled and whose output decoded to records. */
  function QueryRecords(run: Settlement, decode: string -> Option<seq<ProcessRecord>>): Option<seq<ProcessRecord>> {
    if run.Resolved? then decode(run.output) else None
  }

  /** How `/frida/trace` answers. */
  datatype TraceResponse =
    | BadRequest                 // 400: process name is required
    | NotFound                   // 404: application not found on device
    | InternalError              // 500: error while checking or launching
    | NoResponse                 // a query never settled: the request hangs
    | Streaming(tracer: Command) // event-stream opened and `frida-trace` spawned

  /**
   * `/frida/trace` up to spawning the tracer. `runningRun` and `installedRun`
   * are the settled `runCommand` promises of the two `frida-ps` queries,
   * `decode` stands for `JSON.parse` followed by the array methods (`None`
   * when either throws), and `launch` is what `exec` gave for the launch.
   */
  method TraceRoute(id: Option<string>, process: Option<string>, filter: Option<string>,
                    runningRun: Settlement, installedRun: Settlement,
                    decode: string -> Option<seq<ProcessRecord>>, launch: ExecResult)
    returns (response: TraceResponse, issued: seq<Command>)
    ensures !Truthy(process) <==> response == BadRequest
    ensures !Truthy(process) ==> issued == []
    ensures Truthy(process) ==> |issued| >= 1 && issued[0] == RunningQuery
    ensures response.Streaming? ==> issued[|issued| - 1] == response.tracer
    ensures response.Streaming? ==> IsTracer(response.tracer, process.value, filter)
    ensures Truthy(process) && runningRun.Pending? ==> response == NoResponse && issued == [RunningQuery]
    ensures Truthy(process) && !runningRun.Pending? && QueryRecords(runningRun, decode).None? ==>
      response == InternalError && issued == [RunningQuery]
    ensures (Truthy(process) && QueryRecords(runningRun, decode).Some? &&
             !IsRunning(QueryRecords(runningRun, decode).value, process.value) && installedRun.Pending?) ==>
      response == NoResponse && issued == [RunningQuery, InstalledQuery]
    ensures (Truthy(process) && QueryRecords(runningRun, decode).Some? &&
             !IsRunning(QueryRecords(runningRun, decode).value, process.value) &&
             !installedRun.Pending? && QueryRecords(installedRun, decode).None?) ==>
      response == InternalError && issued == [RunningQuery, InstalledQuery]
    ensures (Truthy(process) && QueryRecords(runningRun, decode).Some? &&
             IsRunning(QueryRecords(runningRun, decode).value, process.value)) ==>
      response.Streaming? && |issued| == 2
    ensures (Truthy(process) && QueryRecords(runningRun, decode).Some? &&
             !IsRunning(QueryRecords(runningRun, decode).value, process.value) &&
             QueryRecords(installedRun, decode).Some?) ==>
      var app := FindByName(QueryRecords(installedRun, decode).value, process.value);
      |issued| >= 2 && issued[..2] == [RunningQuery, InstalledQuery] &&
      (response == NotFound <==> app.None? || !Truthy(app.value.identifier)) &&
      (response == NotFound ==> |issued| == 2) &&
      (app.Some? && Truthy(app.value.identifier) ==>
        |issued| >= 3 &&
        issued[2] == AdbShell(AdbCommandLine(LaunchCommand(Render(id), app.value.identifier.value))) &&
        (response == InternalError <==> RunAdbCommand(launch).Threw?) &&
        (RunAdbCommand(launch).Threw? ==> |issued| == 3) &&
        (!RunAdbCommand(launch).Threw? ==> response.Streaming? && |issued| == 4))
    ensures response == NotFound || response == InternalError ==>
      forall i :: 0 <= i < |issued| ==> issued[i].Spawn? ==> issued[i].program == "frida-ps"
  {
    if !Truthy(process) {
      return BadRequest, [];
    }
    var name := process.value;
    var args := BuildTraceArgs(name, filter);

    issued := [RunningQuery];
    if runningRun.Pending? {
      return NoResponse, issued;
    }
    var running := QueryRecords(runningRun, decode);
    if running.None? {
      return InternalError, issued;
    }
    if !IsRunning(running.value, name) {
      issued := issued + [InstalledQuery];
      if installedRun.Pending? {
        return NoResponse, issued;
      }
      var installed := QueryRecords(installedRun, decode);
      if installed.None? {
        return InternalError, issued;
      }
      var app := FindByName(installed.value, name);
      if app.None? || !Truthy(app.value.identifier) {
        return NotFound, issued;
      }
      issued := issued + [AdbShell(AdbCommandLine(LaunchCommand(Render(id), app.value.identifier.value)))];
      if RunAdbCommand(launch).Threw? {
        return InternalError, issued;
      }
    }
    var tracer := Spawn("frida-trace", args);
    issued := issued + [tracer];
    response := Streaming(tracer);
  }

  /** The marker printed before the payload by the class-enumeration script. */
  const StartMarker: string := "###JSON_START###"

  /** The marker printed after the payload. */
  const EndMarker: string := "###JSON_END###"

  datatype Extracted = MarkersMissing | Payload(text: string)

  /**
   * The text from the end of the first start marker to the last end marker;
   * the bounds go through `substring`, which swaps them when they are reversed.
   */
  function ExtractPayload(output: string): (r: Extracted)
    ensures r.MarkersMissing? <==> !Includes(output, StartMarker) || !Includes(output, EndMarker)
  {
    var startIndex := IndexOf(output, StartMarker);
    var endIndex := LastIndexOf(output, EndMarker);
    if startIndex == -1 || endIndex == -1 then MarkersMissing
    else Payload(Substring(output, startIndex + |StartMarker|, endIndex))
  }

  /** `si` is the first occurrence of the start marker and `ei` the last of the end marker. */
  predicate Markers(output: string, si: nat, ei: nat) {
    OccursAt(output, StartMarker, si) && (forall j :: 0 <= j < si ==> !OccursAt(output, StartMarker, j)) &&
    OccursAt(output, EndMarker, ei) && (forall j :: ei < j <= |output| ==> !OccursAt(output, EndMarker, j))
  }

  lemma MarkerIndices(output: string, si: nat, ei: nat)
    requires Markers(output, si, ei)
    ensures IndexOf(output, StartMarker) == si && LastIndexOf(output, EndMarker) == ei
  {
    var a := IndexOf(output, StartMarker);
    var b := LastIndexOf(output, EndMarker);
    assert Includes(output, StartMarker) && Includes(output, EndMarker);
  }

  /**
   * With the start marker before the end marker, the payload is the text
   * strictly between the first start marker and the last end marker.
   */
  lemma PayloadBetweenMarkers(output: string, si: nat, ei: nat)
    requires Markers(output, si, ei)
    requires si + |StartMarker| <= ei
    ensures ExtractPayload(output) == Payload(output[si + |StartMarker|..ei])
  {
    MarkerIndices(output, si, ei);
  }

  /**
   * No ordering check: when the last end marker begins before the first start
   * marker ends, `substring` swaps the bounds and the "payload" is the text
   * from that end marker to the end of the start marker. It starts with `#`,
   * which no JSON text does, so the parse that follows always fails.
   */
  lemma ReversedMarkers(output: string, si: nat, ei: nat)
    requires Markers(output, si, ei)
    requires ei < si + |StartMarker|
    ensures ExtractPayload(output) == Payload(output[ei..si + |StartMarker|])
    ensures ExtractPayload(output).text != "" && ExtractPayload(output).text[0] == '#'
  {
    MarkerIndices(output, si, ei);
    var text := output[ei..si + |StartMarker|];
    assert ExtractPayload(output) == Payload(Substring(output, si + |StartMarker|, ei));
    assert Substring(output, si + |StartMarker|, ei) == text;
    assert text[0] == output[ei..ei + |EndMarker|][0];
  }

  /**
   * Script output framed as `<pre>###JSON_START###<payload>###JSON_END###<post>`,
   * with no `#` in the surrounding noise, gives back exactly the payload,
   * whatever the payload holds (markers included).
   */
  lemma ExtractFramed(pre: string, payload: string, post: string)
    requires '#' !in pre && '#' !in post
    ensures ExtractPayload(pre + StartMarker + payload + EndMarker + post) == Payload(payload)
  {
    var output := pre + StartMarker + payload + EndMarker + post;
    var si := |pre|;
    var ei := |pre| + |StartMarker| + |payload|;
    FirstStartMarker(output, pre, payload + EndMarker + post);
    LastEndMarker(output, pre + StartMarker + payload, post);
    assert Markers(output, si, ei);
    PayloadBetweenMarkers(output, si, ei);
    assert output[si + |StartMarker|..ei] == payload;
  }

  lemma FirstStartMarker(output: string, pre: string, rest: string)
    requires '#' !in pre && output == pre + StartMarker + rest
    ensures OccursAt(output, StartMarker, |pre|)
    ensures forall j :: 0 <= j < |pre| ==> !OccursAt(output, StartMarker, j)
  {
    assert output[|pre|..|pre| + |StartMarker|] == StartMarker;
    forall j | 0 <= j < |pre| ensures !OccursAt(output, StartMarker, j) {
      assert output[j] == pre[j];
      assert output[j..j + |StartMarker|][0] == output[j];
    }
  }

  lemma LastEndMarker(output: string, head: string, post: string)
    requires '#' !in post && output == head + EndMarker + post
    ensures OccursAt(output, EndMarker, |head|)
    ensures forall j :: |head| < j <= |output| ==> !OccursAt(output, EndMarker, j)
  {
    var ei := |head|;
    assert output[ei..ei + |EndMarker|] == EndMarker;
    forall j | ei < j <= |output| ensures !OccursAt(output, EndMarker, j) {
      if j + |EndMarker| <= |output| {
        assert output[j + 13] == post[j + 13 - ei - |EndMarker|];
        assert output[j..j + |EndMarker|][13] == output[j + 13];
      }
    }
  }

  /** The JSON parse of `/frida/methods`: whether the payload is a JSON text. */
  type JsonCheck = string -> bool

  /** How `/frida/methods` answers. */
  datatype MethodsResponse =
    | MethodsBadRequest          // 400: process name is required
    | MethodsPending             // the child has not closed yet
    | ServerCrash                // `error` event without a listener: the process dies
    | MarkersNotFound            // 500: "JSON markers not found in output"
    | ParseFailure               // 500: the payload is not JSON
    | MethodsList(json: string)  // 200: the parsed payload

  /** The `frida` arguments of `/frida/methods`. */
  function MethodsArgs(process: string, scriptPath: string): seq<string> {
    ["-U", "-n", process, "-l", scriptPath, "--runtime=v8"]
  }

  /**
   * `/frida/methods` given the `frida` child's events. The 3-second timer
   * ends in the child's `close` event, which is where the buffered stdout is
   * scanned. The request is taken to stay connected until then.
   */
  function MethodsRoute(process: Option<string>, events: seq<ChildEvent>, isJson: JsonCheck): (r: MethodsResponse)
    ensures !Truthy(process) <==> r == MethodsBadRequest
    ensures r.MethodsList? ==>
      var k := FirstSettling(events);
      k < |events| && events[k].Exit? &&
      ExtractPayload(StdoutText(events[..k])) == Payload(r.json) && isJson(r.json)
    ensures r == MarkersNotFound ==>
      var output := StdoutText(events[..FirstSettling(events)]);
      !Includes(output, StartMarker) || !Includes(output, EndMarker)
    ensures Truthy(process) ==> (r == MethodsPending <==> FirstSettling(events) == |events|)
    ensures Truthy(process) ==>
      (r == ServerCrash <==> FirstSettling(events) < |events| && events[FirstSettling(events)].SpawnError?)
    ensures Truthy(process) && FirstSettling(events) < |events| && events[FirstSettling(events)].Exit? ==>
      var extracted := ExtractPayload(StdoutText(events[..FirstSettling(events)]));
      (r == MarkersNotFound <==> extracted.MarkersMissing?) &&
      (r == ParseFailure <==> extracted.Payload? && !isJson(extracted.text)) &&
      (r.MethodsList? <==> extracted.Payload? && isJson(extracted.text))
  {
    if !Truthy(process) then MethodsBadRequest
    else
      var k := FirstSettling(events);
      if k == |events| then MethodsPending
      else if events[k].SpawnError? then ServerCrash
      else match ExtractPayload(StdoutText(events[..k]))
        case MarkersMissing => MarkersNotFound
        case Payload(text) => if isJson(text) then MethodsList(text) else ParseFailure
  }

  /** Whatever the exit code, a close after complete markers and valid JSON answers with the list. */
  lemma MethodsIgnoresExitCode(process: string, before: seq<ChildEvent>, code: Option<int>,
                               rest: seq<ChildEvent>, isJson: JsonCheck)
    requires process != ""
    requires forall j :: 0 <= j < |before| ==> !Settles(before[j])
    requires ExtractPayload(StdoutText(before)).Payload?
    requires isJson(ExtractPayload(StdoutText(before)).text)
    ensures MethodsRoute(Some(process), before + [Exit(code)] + rest, isJson) ==
      MethodsList(ExtractPayload(StdoutText(before)).text)
  {
    var events := before + [Exit(code)] + rest;
    FirstSettlingAt(events, |before|);
    assert events[..|before|] == before;
  }
}
