/**
 * `runCommand` of the Frida routes: it spawns a child, appends every stdout
 * chunk to a buffer, logs stderr, and settles its promise once — rejecting on a
 * spawn error or a non-zero exit code, resolving with the buffer on exit code 0.
 * The child is given as the sequence of events Node delivers for it.
 */
module CommandRun {
  import opened Common

  /** What a spawned child reports, in arrival order. */
  datatype ChildEvent =
    | StdoutData(chunk: string)
    | StderrData(chunk: string)
    | SpawnError                  // the `error` event
    | Exit(code: Option<int>)     // the `close` event; `None` is Node's `null` (killed by a signal)

  datatype RejectReason = SpawnFailed | NonZeroExit(code: Option<int>)

  /** The state of the promise `runCommand` returns. */
  datatype Settlement = Pending | Resolved(output: string) | Rejected(reason: RejectReason)

  predicate Settles(e: ChildEvent) {
    e.SpawnError? || e.Exit?
  }

  /** The stdout chunks of `events`, concatenated in order. */
  function StdoutText(events: seq<ChildEvent>): string {
    if events == [] then ""
    else (if events[0].StdoutData? then events[0].chunk else "") + StdoutText(events[1..])
  }

  /** The index of the first event that settles the promise, or `|events|` if there is none. */
  function FirstSettling(events: seq<ChildEvent>): (k: nat)
    ensures k <= |events|
    ensures forall j :: 0 <= j < k ==> !Settles(events[j])
    ensures k < |events| ==> Settles(events[k])
  {
    if events == [] then 0
    else if Settles(events[0]) then 0
    else 1 + FirstSettling(events[1..])
  }

  /**
   * What the promise settles to: only the first `error` or `close` counts;
   * exit code 0 resolves with the stdout received before it.
   */
  function Outcome(events: seq<ChildEvent>): Settlement {
    var k := FirstSettling(events);
    if k == |events| then Pending
    else match events[k]
      case Exit(code) =>
        if code == Some(0) then Resolved(StdoutText(events[..k])) else Rejected(NonZeroExit(code))
      case _ => Rejected(SpawnFailed)
  }

  lemma {:induction false} StdoutTextAppend(a: seq<ChildEvent>, b: seq<ChildEvent>)
    ensures StdoutText(a + b) == StdoutText(a) + StdoutText(b)
  {
    if a == [] {
      assert a + b == b;
    } else {
      assert (a + b)[1..] == a[1..] + b;
      StdoutTextAppend(a[1..], b);
    }
  }

  /**
   * `runCommand` driven by the child's events: the closures' shared `output`
   * buffer and the promise's one-time settlement, as a loop over the events.
   */
  method RunCommand(events: seq<ChildEvent>) returns (r: Settlement)
    ensures r == Outcome(events)
  {
    var output := "";
    r := Pending;
    ghost var k := FirstSettling(events);
    for i := 0 to |events|
      invariant output == StdoutText(events[..i])
      invariant i <= k ==> r == Pending
      invariant k < i ==> r == Outcome(events)
    {
      assert events[..i + 1] == events[..i] + [events[i]];
      StdoutTextAppend(events[..i], [events[i]]);
      match events[i]
      case StdoutData(chunk) =>
        output := output + chunk;
      case StderrData(_) =>
      case SpawnError =>
        if r == Pending {
          r := Rejected(SpawnFailed);
        }
      case Exit(code) =>
        if r == Pending {
          r := if code == Some(0) then Resolved(output) else Rejected(NonZeroExit(code));
        }
    }
  }

  /**
   * The promise resolves exactly when the first settling event is a `close`
   * with code 0, and then with every stdout chunk that came before it, in order.
   */
  lemma ResolvesIffExitZero(events: seq<ChildEvent>)
    ensures Outcome(events).Resolved? <==>
      exists k :: 0 <= k < |events| && events[k] == Exit(Some(0)) &&
        forall j :: 0 <= j < k ==> !Settles(events[j])
    ensures Outcome(events).Resolved? ==>
      var k := FirstSettling(events);
      Outcome(events).output == StdoutText(events[..k])
  {
    var k := FirstSettling(events);
    if Outcome(events).Resolved? {
      assert events[k] == Exit(Some(0));
    }
    if exists k' :: 0 <= k' < |events| && events[k'] == Exit(Some(0)) &&
        forall j :: 0 <= j < k' ==> !Settles(events[j]) {
      var k' :| 0 <= k' < |events| && events[k'] == Exit(Some(0)) &&
        forall j :: 0 <= j < k' ==> !Settles(events[j]);
      assert k == k';
    }
  }

  /** A spawn error or a non-zero (or `null`) exit, arriving first, rejects. */
  lemma RejectsOnFailure(prefix: seq<ChildEvent>, e: ChildEvent, rest: seq<ChildEvent>)
    requires forall j :: 0 <= j < |prefix| ==> !Settles(prefix[j])
    requires e == SpawnError || (e.Exit? && e.code != Some(0))
    ensures Outcome(prefix + [e] + rest).Rejected?
  {
    var events := prefix + [e] + rest;
    FirstSettlingAt(events, |prefix|);
  }

  lemma FirstSettlingAt(events: seq<ChildEvent>, k: nat)
    requires k < |events| && Settles(events[k])
    requires forall j :: 0 <= j < k ==> !Settles(events[j])
    ensures FirstSettling(events) == k
  {
  }

  /** Once settled, later events (more output, a second `close`) change nothing. */
  lemma SettlesOnce(events: seq<ChildEvent>, more: seq<ChildEvent>)
    requires Outcome(events) != Pending
    ensures Outcome(events + more) == Outcome(events)
  {
    var k := FirstSettling(events);
    var all := events + more;
    FirstSettlingAt(all, k);
    assert all[..k] == events[..k];
  }
}
