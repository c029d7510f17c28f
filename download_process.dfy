/**
 * `downloadVideo`: the promise around one yt-dlp run. The child's stdout
 * chunks are appended to one buffer as they arrive; the promise settles on
 * the first of `close` (decided by the buffer and the exit code), `error`
 * (spawn failure) and the one-hour timer, and a settled promise ignores
 * whatever is reported afterwards.
 */
module DownloadProcess {
  import opened Wrappers
  import opened DownloadLog

  const TIMED_OUT := "Download timed out"

  /** What the event loop delivers to the handlers, in order. */
  datatype ProcessEvent =
    | StdoutData(chunk: string)
    | StderrData(chunk: string)
    | Close(code: Option<int>)
    | SpawnError(message: string)
    | TimerFired

  /** The events whose handler resolves or rejects the promise. */
  predicate Settles(ev: ProcessEvent) {
    ev.Close? || ev.SpawnError? || ev.TimerFired?
  }

  /** What a settling event settles the promise with, given the stdout collected so far. */
  function Outcome(ev: ProcessEvent, stdout: string): Result<string, string>
    requires Settles(ev)
  {
    match ev
    case Close(code) => ExtractPath(code, stdout)
    case SpawnError(message) => Err(message)
    case TimerFired => Err(TIMED_OUT)
  }

  /** The text the stdout events carry, in arrival order. */
  function StdoutOf(events: seq<ProcessEvent>): string {
    if events == [] then ""
    else
      var last := events[|events| - 1];
      StdoutOf(events[..|events| - 1]) + if last.StdoutData? then last.chunk else ""
  }

  /** The position of the first settling event. */
  function FirstSettling(events: seq<ProcessEvent>): (r: Option<nat>)
    ensures r.Some? ==> (r.value < |events| && Settles(events[r.value]) &&
      forall k :: 0 <= k < r.value ==> !Settles(events[k]))
    ensures r.None? ==> forall k :: 0 <= k < |events| ==> !Settles(events[k])
  {
    if events == [] then None
    else
      match FirstSettling(events[..|events| - 1])
      case Some(k) => Some(k)
      case None => if Settles(events[|events| - 1]) then Some(|events| - 1) else None
  }

  /**
   * The promise's state after events: pending (None) until a settling event
   * arrives, then the outcome of the first one, computed from the stdout
   * that arrived before it.
   */
  function Settlement(events: seq<ProcessEvent>): Option<Result<string, string>> {
    match FirstSettling(events)
    case None => None
    case Some(k) => Some(Outcome(events[k], StdoutOf(events[..k])))
  }

  /**
   * Runs the handlers over the delivered events: `stdout += chunk` for each
   * stdout chunk, and the first of close, error and timeout settles.
   */
  method DownloadVideo(events: seq<ProcessEvent>) returns (outcome: Option<Result<string, string>>)
    ensures outcome == Settlement(events)
  {
    var stdout := "";
    outcome := None;
    var i := 0;
    while i < |events|
      invariant 0 <= i <= |events|
      invariant stdout == StdoutOf(events[..i])
      invariant outcome == Settlement(events[..i])
    {
      var ev := events[i];
      StdoutStep(events, i);
      SettlementStep(events, i);
      match ev {
        case StdoutData(chunk) =>
          stdout := stdout + chunk;
        case StderrData(_) =>
        case Close(code) =>
          if outcome.None? {
            outcome := Some(ExtractPath(code, stdout));
          }
        case SpawnError(message) =>
          if outcome.None? {
            outcome := Some(Err(message));
          }
        case TimerFired =>
          if outcome.None? {
            outcome := Some(Err(TIMED_OUT));
          }
      }
      i := i + 1;
    }
    assert events[..i] == events;
  }

  /** One more event: the stdout buffer grows by its chunk, if it carries one. */
  lemma StdoutStep(events: seq<ProcessEvent>, i: nat)
    requires i < |events|
    ensures StdoutOf(events[..i + 1]) ==
      StdoutOf(events[..i]) + if events[i].StdoutData? then events[i].chunk else ""
  {
    assert events[..i + 1][..i] == events[..i];
  }

  /** One more event: the first settling event stays first, or this one becomes it. */
  lemma FirstSettlingStep(events: seq<ProcessEvent>, i: nat)
    requires i < |events|
    ensures FirstSettling(events[..i + 1]) ==
      match FirstSettling(events[..i])
      case Some(k) => Some(k)
      case None => if Settles(events[i]) then Some(i) else None
  {
    assert events[..i + 1][..i] == events[..i];
  }

  /** One more event: a settled promise stays as it is; a pending one settles if the event settles. */
  lemma SettlementStep(events: seq<ProcessEvent>, i: nat)
    requires i < |events|
    ensures Settlement(events[..i + 1]) ==
      if Settlement(events[..i]).Some? then Settlement(events[..i])
      else if Settles(events[i]) then Some(Outcome(events[i], StdoutOf(events[..i])))
      else None
  {
    FirstSettlingStep(events, i);
    var pre := events[..i + 1];
    match FirstSettling(events[..i])
    case Some(k) =>
      assert pre[..k] == events[..k] == events[..i][..k];
      assert pre[k] == events[k] == events[..i][k];
    case None =>
      assert pre[..i] == events[..i];
      assert pre[i] == events[i];
  }

  /** The buffer is a plain concatenation: splitting the events splits the text. */
  lemma {:induction false} StdoutOfAppend(a: seq<ProcessEvent>, b: seq<ProcessEvent>)
    ensures StdoutOf(a + b) == StdoutOf(a) + StdoutOf(b)
    decreases |b|
  {
    if b != [] {
      var n := |b| - 1;
      assert (a + b)[..|a + b| - 1] == a + b[..n];
      StdoutOfAppend(a, b[..n]);
    } else {
      assert a + b == a;
    }
  }

  /** The first settling event decides, whatever comes after it. */
  lemma SettlesOnFirst(before: seq<ProcessEvent>, ev: ProcessEvent, after: seq<ProcessEvent>)
    requires forall k :: 0 <= k < |before| ==> !Settles(before[k])
    requires Settles(ev)
    ensures Settlement(before + [ev] + after) == Some(Outcome(ev, StdoutOf(before)))
  {
    var all := before + [ev] + after;
    var n := |before|;
    assert all[n] == ev;
    assert forall k :: 0 <= k < n ==> all[k] == before[k];
    var f := FirstSettling(all);
    assert f == Some(n) by {
      assert f.Some?;
      assert f.value <= n;
    }
    assert all[..n] == before;
  }

  /** A settled promise stays settled with the same outcome, whatever is reported later. */
  lemma SettledStays(events: seq<ProcessEvent>, later: seq<ProcessEvent>)
    requires Settlement(events).Some?
    ensures Settlement(events + later) == Settlement(events)
  {
    var k := FirstSettling(events).value;
    assert events == events[..k] + [events[k]] + events[k + 1..];
    assert events + later == events[..k] + [events[k]] + (events[k + 1..] + later);
    SettlesOnFirst(events[..k], events[k], events[k + 1..]);
    SettlesOnFirst(events[..k], events[k], events[k + 1..] + later);
  }

  /** A non-zero or missing exit code fails the download, whatever stdout held. */
  lemma FailedExitIgnoresOutput(before: seq<ProcessEvent>, code: Option<int>, after: seq<ProcessEvent>)
    requires forall k :: 0 <= k < |before| ==> !Settles(before[k])
    requires code != Some(0)
    ensures Settlement(before + [Close(code)] + after) == Some(Err("Download failed"))
  {
    SettlesOnFirst(before, Close(code), after);
  }

  /** When the timer fires before the process closes or errs, the download times out. */
  lemma TimerFirstTimesOut(before: seq<ProcessEvent>, after: seq<ProcessEvent>)
    requires forall k :: 0 <= k < |before| ==> !Settles(before[k])
    ensures Settlement(before + [TimerFired] + after) == Some(Err("Download timed out"))
  {
    SettlesOnFirst(before, TimerFired, after);
  }
}
