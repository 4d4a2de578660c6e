/**
 * The Chatwoot debug script (chatwoot-debug.js): the bounded wait for the
 * SDK, the `fetch` wrapper that counts message-send calls and flags the
 * ones that follow the previous one within two seconds, and the poll that
 * tracks whether the widget is open.
 *
 * The wrapper's closure variables become the fields of a `Monitor`, the
 * retry counter a field of `DebugScript`. The clock, the SDK's presence at
 * each check, the widget element's `style.display` and the outcome of the
 * real `fetch` are parameters.
 */
module ChatwootDebug {
  import opened Wrappers
  import opened JsString

  const MessagesEndpoint := "/api/v1/widget/messages"
  const MessageDedupeWindow := 2000
  const MaxLoadAttempts := 5

  function Min(a: int, b: int): int {
    if a <= b then a else b
  }

  // ----- the fetch wrapper -----

  /** The first argument of a `fetch` call: a URL string, or anything else (a `Request`, a `URL` object). */
  datatype FetchTarget = UrlString(url: string) | OtherTarget

  /** What the wrapped `fetch` settles with: a response, or a network error that is re-thrown. */
  datatype Outcome<R, E> = Response(response: R) | NetworkError(error: E)

  /** The calls the wrapper inspects: a string URL containing the widget messages endpoint. */
  predicate IsMessageSend(t: FetchTarget) {
    t.UrlString? && Includes(t.url, MessagesEndpoint)
  }

  /** `messageSendCount` and `lastMessageTimestamp`. */
  datatype SendRecord = SendRecord(messageSendCount: nat, lastMessageTimestamp: int)

  const InitialRecord := SendRecord(0, 0)

  /** The duplicate test of a message send at time `now` (strict). */
  predicate PotentialDuplicate(r: SendRecord, now: int) {
    now - r.lastMessageTimestamp < MessageDedupeWindow
  }

  /** The record after one `fetch` call at time `now`. */
  function Observe(r: SendRecord, t: FetchTarget, now: int): (next: SendRecord)
    ensures next == r <==> !IsMessageSend(t)
    ensures next.messageSendCount >= r.messageSendCount
    ensures IsMessageSend(t) ==> next.messageSendCount == r.messageSendCount + 1 && next.lastMessageTimestamp == now
  {
    if IsMessageSend(t) then SendRecord(r.messageSendCount + 1, now) else r
  }

  /** The record after a run of `(target, time)` calls, oldest first. */
  function Replay(r: SendRecord, calls: seq<(FetchTarget, int)>): SendRecord
    decreases |calls|
  {
    if calls == [] then r
    else
      var last := calls[|calls| - 1];
      Observe(Replay(r, calls[..|calls| - 1]), last.0, last.1)
  }

  /** Call `i` of the run is reported as a potential duplicate. */
  predicate Flagged(r: SendRecord, calls: seq<(FetchTarget, int)>, i: nat)
    requires i < |calls|
  {
    IsMessageSend(calls[i].0) && PotentialDuplicate(Replay(r, calls[..i]), calls[i].1)
  }

  /** The times of the message-send calls of a run, oldest first. */
  function SendTimes(calls: seq<(FetchTarget, int)>): seq<int>
    decreases |calls|
  {
    if calls == [] then []
    else (if IsMessageSend(calls[0].0) then [calls[0].1] else []) + SendTimes(calls[1..])
  }

  lemma {:induction false} SendTimesSnoc(calls: seq<(FetchTarget, int)>, c: (FetchTarget, int))
    ensures SendTimes(calls + [c]) == SendTimes(calls) + (if IsMessageSend(c.0) then [c.1] else [])
    decreases |calls|
  {
    if calls == [] {
      assert ([] + [c])[1..] == [];
    } else {
      var head := if IsMessageSend(calls[0].0) then [calls[0].1] else [];
      var last := if IsMessageSend(c.0) then [c.1] else [];
      assert (calls + [c])[0] == calls[0];
      assert (calls + [c])[1..] == calls[1..] + [c];
      SendTimesSnoc(calls[1..], c);
      ConcatAssoc(head, SendTimes(calls[1..]), last);
    }
  }

  /**
   * After any run, the count has grown by exactly the number of message
   * sends, and the last timestamp is the time of the latest one (or is
   * unchanged when there was none).
   */
  lemma {:induction false} ReplayCountsSends(r: SendRecord, calls: seq<(FetchTarget, int)>)
    ensures Replay(r, calls).messageSendCount == r.messageSendCount + |SendTimes(calls)|
    ensures var times := SendTimes(calls);
      Replay(r, calls).lastMessageTimestamp == if times == [] then r.lastMessageTimestamp else times[|times| - 1]
    decreases |calls|
  {
    if calls != [] {
      var init := calls[..|calls| - 1];
      var last := calls[|calls| - 1];
      ReplayCountsSends(r, init);
      assert calls == init + [last];
      SendTimesSnoc(init, last);
    }
  }

  /** A run with no message sends leaves both counters as they were. */
  lemma {:induction false} OtherCallsIgnored(r: SendRecord, calls: seq<(FetchTarget, int)>)
    requires forall i :: 0 <= i < |calls| ==> !IsMessageSend(calls[i].0)
    ensures Replay(r, calls) == r
    decreases |calls|
  {
    if calls != [] {
      OtherCallsIgnored(r, calls[..|calls| - 1]);
    }
  }

  /**
   * The window is measured from the message send that came before, flagged
   * or not: a call right after a message send is flagged iff it is a
   * message send less than two seconds later.
   */
  lemma {:induction false} FlaggedAfterSend(r: SendRecord, calls: seq<(FetchTarget, int)>, i: nat)
    requires 1 <= i < |calls| && IsMessageSend(calls[i - 1].0)
    ensures Flagged(r, calls, i) <==> IsMessageSend(calls[i].0) && calls[i].1 - calls[i - 1].1 < MessageDedupeWindow
  {
    assert calls[..i][..i - 1] == calls[..i - 1];
  }

  /** In a burst of message sends each less than two seconds after the last, every send but the first is flagged, however long the burst. */
  lemma {:induction false} BurstFlagged(r: SendRecord, calls: seq<(FetchTarget, int)>)
    requires forall i :: 0 <= i < |calls| ==> IsMessageSend(calls[i].0)
    requires forall i :: 1 <= i < |calls| ==> calls[i].1 - calls[i - 1].1 < MessageDedupeWindow
    ensures forall i :: 1 <= i < |calls| ==> Flagged(r, calls, i)
  {
    forall i | 1 <= i < |calls| ensures Flagged(r, calls, i) {
      FlaggedAfterSend(r, calls, i);
    }
  }

  /** From the initial record, the first message send of a run is flagged iff it happens before time 2000. */
  lemma {:induction false} FirstSendFlagged(calls: seq<(FetchTarget, int)>, i: nat)
    requires i < |calls| && IsMessageSend(calls[i].0)
    requires forall j :: 0 <= j < i ==> !IsMessageSend(calls[j].0)
    ensures Flagged(InitialRecord, calls, i) <==> calls[i].1 < MessageDedupeWindow
  {
    OtherCallsIgnored(InitialRecord, calls[..i]);
  }

  // ----- the widget-state poll -----

  datatype WidgetState = Closed | Open

  function Flip(s: WidgetState): WidgetState {
    if s == Closed then Open else Closed
  }

  /** The state one poll leaves, given the widget element's `style.display`, or `None` when the element is absent. */
  function PolledState(s: WidgetState, display: Option<string>): (n: WidgetState)
    ensures display.None? ==> n == s
    ensures display.Some? ==> (n == Closed <==> display.value == "none")
  {
    match display
    case None => s
    case Some(d) => if d == "none" then Closed else Open
  }

  /** The state changes a run of polls reports, oldest first. */
  function Changes(s: WidgetState, displays: seq<Option<string>>): seq<WidgetState>
    decreases |displays|
  {
    if displays == [] then []
    else
      var n := PolledState(s, displays[0]);
      (if n != s then [n] else []) + Changes(n, displays[1..])
  }

  /** The state after a run of polls. */
  function FinalState(s: WidgetState, displays: seq<Option<string>>): WidgetState
    decreases |displays|
  {
    if displays == [] then s else FinalState(PolledState(s, displays[0]), displays[1..])
  }

  /** Each change moves to the other state: the log alternates, starting with the state `s` is not. */
  ghost predicate Alternates(s: WidgetState, changes: seq<WidgetState>) {
    forall i :: 0 <= i < |changes| ==> changes[i] == if i % 2 == 0 then Flip(s) else s
  }

  /** The polls report a change only when the state differs, so the reports alternate and their parity gives the final state. */
  lemma {:induction false} ChangesAlternate(s: WidgetState, displays: seq<Option<string>>)
    ensures Alternates(s, Changes(s, displays))
    ensures FinalState(s, displays) == if |Changes(s, displays)| % 2 == 0 then s else Flip(s)
    decreases |displays|
  {
    if displays != [] {
      var n := PolledState(s, displays[0]);
      var rest := Changes(n, displays[1..]);
      ChangesAlternate(n, displays[1..]);
      if n != s {
        assert n == Flip(s) && Flip(n) == s;
        var changes := Changes(s, displays);
        assert changes == [n] + rest;
        forall i | 0 <= i < |changes| ensures changes[i] == if i % 2 == 0 then Flip(s) else s {
          if i > 0 {
            assert changes[i] == rest[i - 1];
          }
        }
      }
    }
  }

  /** The closure state of one `setupChatwootMonitoring` call. */
  class Monitor {
    var messageSendCount: nat
    var lastMessageTimestamp: int
    /** The targets handed on to the original `fetch`, oldest first. */
    var forwarded: seq<FetchTarget>
    var widgetState: WidgetState
    /** Every "Widget state changed" report, oldest first. */
    var stateChanges: seq<WidgetState>

    function Record(): SendRecord
      reads this`messageSendCount, this`lastMessageTimestamp
    {
      SendRecord(messageSendCount, lastMessageTimestamp)
    }

    /** The reports alternate from the initial `'closed'`, and the state is the one they last reported. */
    ghost predicate Valid()
      reads this`widgetState, this`stateChanges
    {
      Alternates(Closed, stateChanges) &&
      widgetState == if |stateChanges| % 2 == 0 then Closed else Open
    }

    constructor ()
      ensures Record() == InitialRecord && forwarded == []
      ensures widgetState == Closed && stateChanges == [] && Valid()
    {
      messageSendCount := 0;
      lastMessageTimestamp := 0;
      forwarded := [];
      widgetState := Closed;
      stateChanges := [];
    }

    /**
     * The wrapped `fetch` at time `now`, where `network` is what the
     * original `fetch` settles with. Every call is forwarded and its outcome
     * returned unchanged; `flagged` is the duplicate warning.
     */
    method Fetch<R, E>(target: FetchTarget, now: int, network: Outcome<R, E>) returns (result: Outcome<R, E>, flagged: bool)
      modifies this`messageSendCount, this`lastMessageTimestamp, this`forwarded
      ensures Record() == Observe(old(Record()), target, now)
      ensures flagged <==> IsMessageSend(target) && PotentialDuplicate(old(Record()), now)
      ensures forwarded == old(forwarded) + [target]
      ensures result == network
    {
      flagged := false;
      if target.UrlString? && Includes(target.url, MessagesEndpoint) {
        messageSendCount := messageSendCount + 1;
        var currentTime := now;
        if currentTime - lastMessageTimestamp < MessageDedupeWindow {
          flagged := true;
        }
        lastMessageTimestamp := currentTime;
      }
      forwarded := forwarded + [target];
      result := network;
    }

    /** One tick of the one-second widget poll. */
    method PollWidget(display: Option<string>)
      requires Valid()
      modifies this`widgetState, this`stateChanges
      ensures Valid()
      ensures widgetState == PolledState(old(widgetState), display)
      ensures stateChanges == old(stateChanges) + if widgetState != old(widgetState) then [widgetState] else []
    {
      if display.Some? {
        var newState := if display.value == "none" then Closed else Open;
        if newState != widgetState {
          widgetState := newState;
          stateChanges := stateChanges + [widgetState];
          assert widgetState == Flip(old(widgetState));
          forall i | 0 <= i < |stateChanges| ensures stateChanges[i] == if i % 2 == 0 then Flip(Closed) else Closed {
            if i < |old(stateChanges)| {
              assert stateChanges[i] == old(stateChanges)[i];
            }
          }
        }
      }
    }
  }

  // ----- waiting for the SDK -----

  /** `chatwootLoadAttempts`, whether a check is due (the first call or a scheduled retry), and how often setup ran. */
  datatype LoaderState = LoaderState(loadAttempts: nat, checkDue: bool, setupRuns: nat)

  const InitialLoader := LoaderState(0, true, 0)

  /** One `waitForChatwoot` call, `sdkPresent` telling whether `window.chatwootSDK` is set. */
  function WaitStep(s: LoaderState, sdkPresent: bool): (next: LoaderState)
    ensures next.loadAttempts == s.loadAttempts + 1
    ensures next.setupRuns == s.setupRuns + (if sdkPresent then 1 else 0)
    ensures next.checkDue <==> !sdkPresent && next.loadAttempts < MaxLoadAttempts
  {
    var attempts := s.loadAttempts + 1;
    if sdkPresent then LoaderState(attempts, false, s.setupRuns + 1)
    else LoaderState(attempts, attempts < MaxLoadAttempts, s.setupRuns)
  }

  /** The checks made while one is due, `present[i]` telling whether the SDK is there at the `i`-th. */
  function Run(s: LoaderState, present: seq<bool>): LoaderState
    decreases |present|
  {
    if !s.checkDue || present == [] then s else Run(WaitStep(s, present[0]), present[1..])
  }

  /** The index of the first check that finds the SDK, or `|present|`. */
  function FirstPresent(present: seq<bool>): (k: nat)
    ensures k <= |present|
    ensures forall i :: 0 <= i < k ==> !present[i]
    ensures k < |present| ==> present[k]
    decreases |present|
  {
    if present == [] || present[0] then 0 else 1 + FirstPresent(present[1..])
  }

  lemma {:induction false} RunFrom(a: nat, present: seq<bool>)
    requires a < MaxLoadAttempts
    ensures var r := Run(LoaderState(a, true, 0), present);
      var k := FirstPresent(present);
      r.loadAttempts == a + Min(Min(|present|, k + 1), MaxLoadAttempts - a) &&
      r.setupRuns == (if k < |present| && k < MaxLoadAttempts - a then 1 else 0) &&
      (r.checkDue <==> |present| < Min(k + 1, MaxLoadAttempts - a))
    decreases |present|
  {
    if present != [] && !present[0] && a + 1 < MaxLoadAttempts {
      RunFrom(a + 1, present[1..]);
    }
  }

  /**
   * The SDK is checked at most five times, setup runs at most once, and it
   * runs iff one of the first five checks finds the SDK; the attempt count
   * is the number of checks made.
   */
  lemma LoaderBounded(present: seq<bool>)
    ensures var r := Run(InitialLoader, present);
      r.loadAttempts == Min(Min(|present|, FirstPresent(present) + 1), MaxLoadAttempts) &&
      r.loadAttempts <= MaxLoadAttempts && r.setupRuns <= 1 &&
      (r.setupRuns == 1 <==> exists i :: 0 <= i < |present| && i < MaxLoadAttempts && present[i])
  {
    RunFrom(0, present);
  }

  /** The script's own state: the retry counter and the monitor setup creates. */
  class DebugScript {
    var loadAttempts: nat
    var checkDue: bool
    var setupRuns: nat
    var monitor: Monitor?

    function Loader(): LoaderState
      reads this`loadAttempts, this`checkDue, this`setupRuns
    {
      LoaderState(loadAttempts, checkDue, setupRuns)
    }

    constructor ()
      ensures Loader() == InitialLoader && monitor == null
    {
      loadAttempts := 0;
      checkDue := true;
      setupRuns := 0;
      monitor := null;
    }

    /** `waitForChatwoot()`: finding the SDK runs `setupChatwootMonitoring`, otherwise a retry is scheduled while attempts remain. */
    method WaitForChatwoot(sdkPresent: bool)
      modifies this`loadAttempts, this`checkDue, this`setupRuns, this`monitor
      ensures Loader() == WaitStep(old(Loader()), sdkPresent)
      ensures sdkPresent ==> (monitor != null && fresh(monitor) && monitor.Record() == InitialRecord &&
                              monitor.forwarded == [] && monitor.widgetState == Closed && monitor.stateChanges == [] &&
                              monitor.Valid())
      ensures !sdkPresent ==> monitor == old(monitor)
    {
      loadAttempts := loadAttempts + 1;
      if sdkPresent {
        setupRuns := setupRuns + 1;
        checkDue := false;
        monitor := new Monitor();
      } else if loadAttempts < MaxLoadAttempts {
        checkDue := true;
      } else {
        checkDue := false;
      }
    }
  }
}
