# revdroid-gui core, modelled in Dafny

revdroid-gui is a web dashboard for Android reverse engineering. An Express
backend shells out to `adb`, `frida`, `frida-ps` and `frida-trace`, caches app
icons in MongoDB and streams process output to a React page as server-sent
events. This project models the decision and text-processing logic of that
backend and of the page:

- `/frida/trace`: the `frida-trace` argument vector; the readiness decision
  (already running, otherwise launch the installed app through `adb`,
  otherwise 404); and the framing of each output chunk as `data: …` events.
- `/frida/methods`: recovering the JSON payload between the
  `###JSON_START###` and `###JSON_END###` markers.
- `runCommand`: it buffers stdout and settles once, resolving only on exit
  code 0.
- `runAdbCommand` and `runNormalCommand`: they classify an `exec` outcome as
  a value, a rethrow, or a silent `undefined`.
- The `adb` output parsers: `adb devices`, `pm path`, `pm list packages`,
  and `getprop` with its bracket stripping and the `/device-info` record.
  Also the `logcat`, `start-activity` and `power` command builders.
- The launcher-icon choice: the three name tiers, `densityRank`, and the
  stable descending sort.
- The `/adb/packages` loop over the icon cache and the "fetch in progress"
  markers, and the background fetch that completes a marker.
- Page rules: the package search, the APK basename and download name, device
  auto-selection after a reload, and the screenshot orientation.

Every external call is an input to the model. A spawned child is the
sequence of events Node delivers for it. `exec` is its stdout and stderr, or
its failure. `JSON.parse` is a decoder parameter. The MongoDB collections are
a map and a set held by a class.

Modules, in dependency order:

- `Common`: `Option`, truthiness, `filter`/`map`.
- `JsString`: the JavaScript string operations the code relies on.
- `EventStream`: SSE frames, the response object, and a reader that follows
  the WHATWG HTML Living Standard, section 9.2.6.
- `CommandRun`
- `AdbExec`
- `FridaRoutes`
- `AdbParsers`
- `IconPick`
- `PackageStore`
- `UiRules`

Some behaviour of the code is easy to misread, and the model follows the code:

- A failed launch in `/frida/trace` is an error only when `runAdbCommand`
  rethrows. That happens when the message contains `Command failed:` or
  `does not exist.`. Any other stderr makes the launch return `undefined`, and
  tracing goes ahead.
- Marker extraction does not check that the start marker comes before the end
  marker. `substring` swaps reversed bounds, so reversed markers yield a
  fragment of the markers themselves.
- Each output chunk is split on its own. There is no carry-over of a partial
  line between chunks.
- In the background icon fetch, the marker is deleted before the icon is
  saved. A failed save therefore leaves neither a marker nor a cached icon, so
  the package is requested again by the next listing. Only failures before the
  delete keep the marker.
- The icon-name patterns are tested against the whole lower-cased path,
  directories included. Any image under `res/mipmap*/` or `res/drawable*/` in
  a directory whose name contains `launcher` counts as a strictly named icon.

## Model

| member | source | states |
|---|---|---|
| JsString.IndexOf | backend/routes/frida.js:146 | `indexOf` is the first index where the pattern occurs, and -1 exactly when it does not occur |
| JsString.LastIndexOf | backend/routes/frida.js:147 | `lastIndexOf` is the last index where the pattern occurs, and -1 exactly when it does not occur |
| JsString.Split | backend/server.js:67 | joining the pieces with the separator gives back the string, and no piece contains the separator |
| JsString.SplitJoinChar | backend/server.js:67 | splitting a join of separator-free pieces on a one-character separator gives back exactly those pieces |
| JsString.SplitLines | backend/routes/frida.js:92 | `split(/\r?\n/)` yields one piece per LF plus one, and no piece contains an LF |
| JsString.SplitLinesRejoin | backend/routes/frida.js:92 | without CR, joining the pieces with LF gives back the chunk |
| JsString.Trim | backend/utils/utils.js:14 | `trim` keeps a part of the string that neither starts nor ends with ECMAScript white space |
| JsString.TrimInfix | backend/utils/utils.js:14 | `trim` removes only white space, from the two ends, and keeps the middle as it is |
| JsString.TrimEmpty | backend/server.js:69 | a line trims to the empty string exactly when it is all white space |
| JsString.ReplaceFirst | backend/server.js:121 | `replace` with a string pattern changes only the first occurrence, and changes nothing when the pattern is absent |
| JsString.ToLower | frontend/src/app/page.tsx:504 | `toLowerCase` keeps the length and lower-cases each ASCII letter in place |
| JsString.ToLowerIdempotent | frontend/src/app/page.tsx:504 | lower-casing twice is the same as lower-casing once |
| JsString.NatToStringRoundTrip | backend/routes/frida.js:102 | the decimal exit code in the close frame reads back as the same number |
| Common.Filter | backend/server.js:69 | `filter` keeps exactly the elements that pass, and only elements of the input |
| Common.FilterAppend | backend/server.js:69 | filtering a concatenation is concatenating the filtered parts |
| Common.Map | backend/server.js:70-73 | `map` keeps the length and applies the function at each index |
| EventStream.FramesOf | backend/routes/frida.js:93 | one `data:` frame per piece, in order |
| EventStream.PerLineFrameCount | backend/routes/frida.js:91-98 | a chunk yields one frame per LF in it plus one, and no framed piece holds an LF |
| EventStream.SseResponse.constructor | backend/routes/frida.js:51-54 | a new event stream has no frames, is not ended, and has asked no child to die |
| EventStream.SseResponse.OnData | backend/routes/frida.js:91-99 | a chunk appends its frames and leaves the earlier frames unchanged; after the end nothing is added |
| EventStream.SseResponse.OnChildClose | backend/routes/frida.js:101-104 | the child's close appends exactly one close frame with the exit code, then ends the response |
| EventStream.SseResponse.OnClientClose | backend/routes/frida.js:106-109 | a client disconnect kills the child and ends the response without writing |
| EventStream.FrameDelivers | backend/routes/frida.js:93 | a frame whose piece has no CR or LF reaches the subscriber as exactly one event carrying that piece |
| EventStream.FramesDeliver | backend/routes/frida.js:93 | a run of frames delivers their payloads in order, one event per frame |
| EventStream.StdoutChunkDelivered | backend/routes/frida.js:91-94 | for stdout without CR, the events of a chunk, joined with LF, are the chunk itself |
| EventStream.BareCrTruncates | backend/routes/frida.js:92-93 | a piece with a bare CR is framed whole, and the subscriber sees only the text before the CR |
| EventStream.BareCrRead | backend/routes/frida.js:92-93 | in general, text after a bare CR in a stdout piece is lost to the subscriber |
| EventStream.CloseFrameDelivers | backend/routes/frida.js:102 | the close frame delivers "label code" as one event |
| EventStream.RouteCloseFramesDeliver | backend/routes/frida.js:102 | the close frames of `/frida/trace`, `/execute-in-terminal` and `/adb/logcat` each deliver their label and the exit code as one event |
| CommandRun.FirstSettling | backend/routes/frida.js:35-41 | the index of the first `error` or `close` event, with no settling event before it |
| CommandRun.RunCommand | backend/routes/frida.js:25-43 | the loop over the child's events settles exactly as `Outcome` says: first `error` or `close` only |
| CommandRun.ResolvesIffExitZero | backend/routes/frida.js:36-40 | the promise resolves exactly when the first settling event is a close with code 0, and then with all earlier stdout, in order |
| CommandRun.RejectsOnFailure | backend/routes/frida.js:35-38 | a spawn error, or a close with a non-zero or `null` code, rejects when it comes first |
| CommandRun.StdoutTextAppend | backend/routes/frida.js:29-31 | the buffer of a concatenation of events is the concatenation of the buffers |
| CommandRun.SettlesOnce | backend/routes/frida.js:35-41 | once settled, later events change nothing |
| AdbExec.AdbCommandLine | backend/utils/utils.js:12 | the executed line is `adb ` followed by the command |
| AdbExec.RunAdbCommand | backend/utils/utils.js:10-21 | returns trimmed stdout exactly when exec succeeds with empty stderr; throws exactly when the error message (stderr or exec's) contains one of the two phrases |
| AdbExec.RunNormalCommand | backend/utils/utils.js:23-31 | never throws; returns trimmed stdout exactly when exec succeeds with empty stderr |
| AdbExec.StderrWithoutPhraseIsSwallowed | backend/utils/utils.js:13-20 | stderr without either phrase gives `undefined`, even when the command ran |
| AdbExec.HelpersAgreeExceptRethrow | backend/utils/utils.js:10-31 | the two helpers agree except where `runAdbCommand` rethrows, and there `runNormalCommand` gives `undefined` |
| FridaRoutes.BuildTraceArgs | backend/routes/frida.js:57-60 | the arguments are `-U -n <process>`, followed by `-j <filter>` exactly when the filter is truthy |
| FridaRoutes.FindByName | backend/routes/frida.js:66-73 | `find` gives nothing exactly when no record has the name (the `some` test), and otherwise the first record with it |
| FridaRoutes.TraceRoute | backend/routes/frida.js:45-89 | 400 exactly when the process is missing or empty, with no command issued; a query that never settles leaves the request unanswered; a rejected or undecodable `frida-ps` query answers 500 with no tracer; if the process runs, no installed query and no launch; if it is not installed or has no identifier, 404 with only `frida-ps` issued; otherwise the launch line uses the first match's identifier, a 500 comes exactly when `runAdbCommand` rethrows, and else the tracer is the fourth and last command; a started tracer always has the trace arguments |
| FridaRoutes.ExtractPayload | backend/routes/frida.js:144-150 | the markers are missing exactly when either marker does not occur |
| FridaRoutes.MarkerIndices | backend/routes/frida.js:146-147 | the indices used are the first start marker and the last end marker |
| FridaRoutes.PayloadBetweenMarkers | backend/routes/frida.js:151 | with the markers in order, the payload is the text from the end of the first start marker to the last end marker |
| FridaRoutes.ReversedMarkers | backend/routes/frida.js:151 | with the markers reversed, `substring` swaps its bounds, and the payload is a fragment starting with `#` |
| FridaRoutes.ExtractFramed | backend/routes/frida.js:143-151 | the text put between the two markers, with no `#` around them, is recovered exactly |
| FridaRoutes.MethodsRoute | backend/routes/frida.js:113-158 | 400 exactly when the process is missing; no answer exactly while nothing settled; a crash exactly when a spawn error comes first; after a close, "markers not found" exactly when a marker is missing, a parse failure exactly when the payload is not JSON, and otherwise the list of the payload between the markers of the stdout buffered up to then |
| FridaRoutes.MethodsIgnoresExitCode | backend/routes/frida.js:141-153 | whatever the exit code, a close after complete markers and a JSON payload answers with the list |
| AdbParsers.DeviceOf | backend/server.js:71-72 | the id is the text before the first tab; the status is absent exactly when there is no tab, and otherwise is the text after it, up to a second tab |
| AdbParsers.ParseDevices | backend/server.js:66-73 | at most one device per line after the header |
| AdbParsers.DevicesOfRows | backend/server.js:66-73 | the devices are the non-blank rows after the header, each parsed, in order |
| AdbParsers.HeaderOnlyHasNoDevices | backend/server.js:68 | a lone header line lists no devices |
| AdbParsers.DevicesAppendRow | backend/server.js:66-73 | one more line adds at most its own device at the end and leaves the others unchanged |
| AdbParsers.PmPaths | backend/server.js:338-341 | every path is non-empty |
| AdbParsers.PmPathsOfLines | backend/server.js:338-341 | the paths are the lines with the first `package:` removed and then trimmed, with empty results dropped, in order |
| AdbParsers.CleanPathOfEntry | backend/server.js:121 | a `package:` entry without surrounding white space gives back its path |
| AdbParsers.PmListPackages | backend/server.js:270-273 | at most one package per line |
| AdbParsers.PmListPackagesOfLines | backend/server.js:270-273 | only lines containing `package:` are kept, each cleaned, in order |
| AdbParsers.PmListCommand | backend/server.js:269 | the command ends in ` -3` exactly when system apps are not requested |
| AdbParsers.ParseProps | backend/server.js:421-430 | the loop builds the dictionary that the fold of the line assignments gives |
| AdbParsers.ApplyDomain | backend/server.js:425-429 | a key is in the dictionary exactly when some line assigns it |
| AdbParsers.ApplyLastWins | backend/server.js:428 | the last line that assigns a key decides its value |
| AdbParsers.PropsLastWins | backend/server.js:421-430 | a key is present exactly when some line has non-empty first and second `: ` fields with that trimmed key; the last such line sets the value |
| AdbParsers.SplitPair | backend/server.js:426 | a line `a: b` without other colons splits into exactly `a` and `b` |
| AdbParsers.StandardPropLine | backend/server.js:426-428 | a `[name]: [value]` line assigns `[value]` to `[name]` |
| AdbParsers.StripBrackets | backend/server.js:435 | a leading `[` is removed exactly when the value starts with one, and a trailing `]` exactly when it ends with one; a lone `[` or `]` goes entirely, and nothing else changes |
| AdbParsers.StripWrapped | backend/server.js:435 | a bracketed value loses exactly its two brackets |
| AdbParsers.StripUnwrapped | backend/server.js:435 | a value with no leading `[` and no trailing `]` is unchanged |
| AdbParsers.Stripped | backend/server.js:435-488 | optional chaining yields a field exactly when its property is present |
| AdbParsers.TableFieldsSpec | backend/server.js:435-488 | each listed field is present exactly when its property is, with the stripped value |
| AdbParsers.TableFieldsNotListed | backend/server.js:433-489 | no field outside the table appears |
| AdbParsers.Imei | backend/server.js:457 | the `ril.serialnumber` value when it is non-empty, else the `ro.ril.oem.imei` value, stripped |
| AdbParsers.DeviceInfoOf | backend/server.js:433-489 | `isRooted` is `Yes` exactly when the stripped `ro.debuggable` is `1`, and `debugMode` agrees; `usbDebugging` tests the raw USB config for `adb`; `imei` follows the fallback |
| AdbParsers.PlainFieldsWellFormed | backend/server.js:435-488 | the 38 plain field names are distinct, and none is `imei`, `isRooted`, `debugMode` or `usbDebugging` |
| AdbParsers.DeviceInfoPlainField | backend/server.js:435-488 | each plain field, `brand` to `vendorOS`, is in the record exactly when its property is, holding that property with its brackets stripped |
| AdbParsers.DeviceInfoNoOtherField | backend/server.js:433-489 | the record holds only the plain fields and the four computed ones |
| AdbParsers.DeviceInfoRoute | backend/server.js:417-495 | a record is answered exactly when `runAdbCommand` returns, and it is built from the trimmed `getprop` output |
| AdbParsers.BuildLogcatArgs | backend/server.js:498-513 | the arguments are `-s <id> logcat`, then `<filter>:<level>` (level `I` by default) and `*:S` when the filter is truthy, else `*:I` |
| AdbParsers.StartActivityCommand | backend/server.js:373-378 | the monkey launch exactly when the activity name is not truthy; otherwise `-s <id> shell am start -n <package>/<activity>` |
| AdbParsers.PowerCommand | backend/server.js:389-396 | a known action uses its table command; a name the object literal inherits (`constructor`, `__proto__`, `toString` and the other `Object.prototype` members) renders the inherited value; any other or missing action renders as `undefined` |
| AdbParsers.PowerActionsReboot | backend/server.js:389-394 | every known action is a reboot of some kind |
| IconPick.StrictIsBroad | backend/server.js:172-186 | every strictly named candidate is also a broadly named one |
| IconPick.DirectoryNameCounts | backend/server.js:166-175 | a directory whose name contains `launcher` makes every image under a res folder below it a strict candidate |
| IconPick.Rank | backend/server.js:253-262 | the rank is between 0 and 6 |
| IconPick.DensityRank | backend/server.js:253-262 | the early-return loop computes the rank of the first density the path contains |
| IconPick.RankAt | backend/server.js:255-259 | when the i-th density is the first one contained, the rank is 6 - i |
| IconPick.RankZero | backend/server.js:261 | a path that contains no density ranks 0 |
| IconPick.NestedQualifiers | backend/server.js:254-258 | a path containing `xxxhdpi` also contains the shorter qualifiers, yet ranks 6 |
| IconPick.Insert | backend/server.js:200 | inserting into a descending run keeps it a descending permutation, ahead of equal ranks |
| IconPick.SortByRank | backend/server.js:200 | the sort is a permutation, in descending rank |
| IconPick.SortHead | backend/server.js:200-201 | the first element after the sort is the first of the highest rank (the sort is stable) |
| IconPick.Candidates | backend/server.js:166-198 | every strictly named file, in listing order, when one exists; else every broadly named file when one exists; else every image; no candidates exactly when there is no image |
| IconPick.ChooseIcon | backend/server.js:200-201 | no icon exactly when there is no image file; otherwise an image from the list |
| IconPick.ChosenIsFirstBest | backend/server.js:200-201 | the chosen icon is the first candidate of maximal density rank |
| PackageStore.NewRequestsSpec | backend/server.js:276-292 | each uncached, unmarked package is requested, once, and nothing else is |
| PackageStore.RequestsAreMarkers | backend/server.js:287-291 | the packages requested are exactly the packages newly marked |
| PackageStore.MarkedNeverRequested | backend/server.js:282-285 | a marked package is never requested |
| PackageStore.Store.constructor | backend/server.js:278-290 | empty cache and no markers |
| PackageStore.ListStep | backend/server.js:276-298 | one package of the listing adds its marker and its request exactly when it is neither cached nor already marked |
| PackageStore.Store.Visit | backend/server.js:277-310 | in extras mode the entry carries the cached icon or `x`, and an uncached, unmarked package is marked and requested; otherwise the cache is read only while the database is connected, and nothing is marked |
| PackageStore.Store.ListPackages | backend/server.js:275-312 | one entry per package in order, with the cached icon or `x`; the cache unchanged; in extras mode the new markers and the requests are exactly the uncached, unmarked packages; otherwise nothing is marked or requested |
| PackageStore.Store.CompleteFetch | backend/server.js:207-227 | the marker goes exactly when the steps before the delete produced an icon and the delete succeeds; the icon is cached and returned exactly when the save succeeds as well, and the package is then cached and unmarked; the cache never changes otherwise |
| PackageStore.FirstBaseApk | backend/server.js:125 | nothing exactly when no path contains `base.apk`, else the first path that does |
| PackageStore.FailedFetchIsNotRetried | backend/server.js:277-285 | a package whose fetch failed before the delete stays marked, is never requested again, and shows `x` |
| UiRules.SearchIgnoresCase | frontend/src/app/page.tsx:504 | searches that differ only in case show the same rows |
| UiRules.ExactMatchVisible | frontend/src/app/page.tsx:504 | a package whose name contains the search as typed is shown |
| UiRules.TypingNarrows | frontend/src/app/page.tsx:504 | a row shown for a longer search is shown for any prefix of it |
| UiRules.Basename | frontend/src/app/page.tsx:627 | the displayed name has no `/`; it is the whole path when the path has none, else the suffix after the last `/` |
| UiRules.DownloadName | frontend/src/app/page.tsx:236 | the download name is the package, `_`, and the longest suffix of the path without a `/` (the whole path when it has none) |
| UiRules.DownloadNameEndsInBasename | frontend/src/app/page.tsx:236 | for `dir/file`, the displayed name is `file` and the download name ends in `_file` |
| UiRules.NextSelection | frontend/src/app/page.tsx:86-91 | an empty list clears the selection; with nothing selected the first device is taken; otherwise the selection stays |
| UiRules.StaleSelectionKept | frontend/src/app/page.tsx:89 | a selection whose device left the list is kept |
| UiRules.DeviceSelector.OnDevicesLoaded | frontend/src/app/page.tsx:84-91 | the devices are replaced by the list; an empty list clears the selection; with the captured selection empty the first device is taken; otherwise the current selection stays; from an unchanged selection this is the selection rule |
| UiRules.OrientationOf | frontend/src/app/page.tsx:314 | landscape exactly when wider than tall |
| UiRules.TurningFlips | frontend/src/app/page.tsx:314 | turning a non-square screen flips the orientation; a square one is portrait |

## Left out

- Process spawning and `exec` themselves. They are replaced by their
  results: child events, `ExecResult` and settled promises. The 3-second kill
  timer of `/frida/methods` is left out; it ends in the same `close` event.
- FridaRoutes.MethodsRoute: a client disconnect before the child closes is not
  modelled. The disconnect handler ends the response with an empty body. The
  child's `close` then answers on the ended response, which throws inside an
  event listener. No handler catches that, so the server exits.
- `JSON.parse` and the array methods on its result. They are a decoder
  parameter of `FridaRoutes.TraceRoute` and a JSON test parameter of
  `FridaRoutes.MethodsRoute`.
- FridaRoutes.MethodsRoute: the `error` event of the `frida` child has no
  listener. It is modelled as `ServerCrash`, because Node's exit on an
  unhandled `error` event is outside the model.
- `/frida/processes`, `/adb/execute`, `/adb/scrcpy`, `/adb/launch-app`,
  `/adb/screenshot`, `/export-apk` and `/execute-in-terminal`. They pass
  commands through without deciding anything. The framing of
  `/execute-in-terminal` is the one `EventStream` models, and the `/adb/logcat`
  framing is `WholeChunk`.
- MongoDB: connection, failures of its calls, concurrency between listings,
  and duplicate documents. The collections are the `icons` map and the
  `fetching` set of `PackageStore.Store`. A failing `Package.findOne` fails the
  whole listing, and that is not modelled.
- PackageStore.Store.Visit: the marker lookup and the marker save sit in a
  `try` whose `catch` only logs. When either fails, the listing goes on with
  the package unmarked and no fetch requested. The model assumes both succeed,
  so it always marks and requests an uncached, unmarked package.
- PackageStore.Store.CompleteFetch: the steps before the delete are summed up by `PackageStore.PrepareIcon`, which fails when `pm path` fails, when no path holds `base.apk`, when pulling or unpacking fails, when no image is found, or when reading or removing the folder fails. The filesystem work itself is left out: `mkdir`,
  the existence checks, pulling, unzipping, `listAllFilesRecursively` and
  `readFile`. Base64 is left out as well. Each step is an input saying whether
  it succeeded and what it produced.
- PackageStore.Store.CompleteFetch: the marker delete (`backend/server.js:209`) and the
  icon save (`backend/server.js:221`) are two awaits of a fetch nobody awaits, but the
  model does them as one step. A listing whose `Package.findOne` runs before
  the save and whose marker lookup runs after the delete sees neither, so it
  marks the package again and starts a second fetch; the first fetch's save
  then leaves the package both cached and marked, until the second fetch
  deletes the marker, or for good if that fetch fails before its delete. The
  model cannot reach that state, and `PackageStore.Store.Valid` holds only for
  its one-at-a-time steps.
- `runFridaCommand` in `backend/utils/utils.js`. It uses `spawn` without
  importing it, so it cannot run.
- JsString.ToLower: only ASCII letters are lower-cased. Non-ASCII case
  mapping is left out.
- Strings are sequences of Unicode characters, while JavaScript strings are
  UTF-16 code units. No modelled result depends on index values beyond
  ASCII text. A multi-byte UTF-8 sequence split across two output chunks
  (decoded as U+FFFD by `toString()`) is not modelled either.
- FridaRoutes.TraceRoute: the launch `exec` is taken to settle. One that never
  settles would leave the request unanswered, as a pending query does.
- Node's write-after-end error: frames written after `res.end()` are dropped.
- EventStream.SseResponse: the spawned `frida-trace`, `adb logcat` and shell children have no `error` listener, so a spawn failure (a missing binary, say) crashes the server. The response class has no event for it, and the crash is not modelled.
- React rendering, axios calls, toasts and screenshot polling. The device-list
  callback is given the `selectedDevice` value it closed over, apart from the
  current selection it updates.
- AdbParsers.PowerCommand: the text of an inherited value is the one V8 prints for `Object` and the built-in `Object.prototype` methods. An `action` that is not a string, such as an array or a number, is not modelled.
- AdbParsers.BuildLogcatArgs: a missing `id` would be passed to `spawn` as
  `undefined`. The model takes the id as a string.
- IconPick.ChooseIcon: its contract does not itself say that the choice has
  the highest density rank. That is stated and proved in
  `IconPick.ChosenIsFirstBest`.
