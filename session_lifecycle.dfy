/**
 * The cookie lifecycle policy of `setupCookieAutoDelete` (script.js): the
 * handlers it registers for page setup, `beforeunload`, `visibilitychange`,
 * `focus` and the five-minute heartbeat, as methods over a `CookieDocument`
 * with the clock (`now`) and the page's hostname passed in.
 */
module SessionLifecycle {
  import opened Wrappers
  import opened JsString
  import opened JsNumber
  import opened CookieManager
  import opened CookieProperties

  const SessionActiveCookie := "mtb_session_active"
  const TabHiddenTimeCookie := "mtb_tab_hidden_time"
  const LastActivityCookie := "mtb_last_activity"
  const ThirtyMinutes := 30 * 60 * 1000
  const LeaveMessage := "Your session data will be cleared. Are you sure you want to leave?"

  /** `document.visibilityState`; `Prerender` stands for a value neither branch of the handler handles. */
  datatype VisibilityState = Visible | Hidden | Prerender

  /** JavaScript truthiness of a `get` result: not `null` and not the empty string. */
  predicate Truthy(v: Option<string>) {
    v.Some? && v.value != ""
  }

  /**
   * The visible-again test: a stored, non-empty hidden time that `parseInt`
   * reads as a number more than thirty minutes before `now`. A NaN makes
   * the comparison false.
   */
  predicate HiddenTooLong(jar: string, now: int) {
    var hiddenTime := CookieValue(jar, TabHiddenTimeCookie);
    Truthy(hiddenTime) &&
    match ParseInt(hiddenTime.value)
    case None => false
    case Some(h) => now - h > ThirtyMinutes
  }

  /** The writes of the `visibilitychange` handler. */
  function VisibilityWrites(jar: string, host: string, state: VisibilityState, now: int, utc: int -> string): seq<string> {
    match state
    case Hidden => [SetCookieString(TabHiddenTimeCookie, Some(IntToString(now)), 0, now, utc)]
    case Visible => if HiddenTooLong(jar, now) then DeleteAllWrites(jar, host) else []
    case Prerender => []
  }

  /** The writes of the `focus` handler. */
  function FocusWrites(jar: string, now: int, utc: int -> string): seq<string> {
    if Truthy(CookieValue(jar, SessionActiveCookie)) then []
    else [SetCookieString(SessionActiveCookie, Some("true"), 0, now, utc)]
  }

  /** The session flag `setupCookieAutoDelete` writes first, a cookie with no expiry. */
  method Setup(doc: CookieDocument, now: int)
    modifies doc`written
    ensures doc.written == old(doc.written) + [SetCookieString(SessionActiveCookie, Some("true"), 0, now, doc.utc)]
  {
    doc.Set(SessionActiveCookie, Some("true"), 0, now);
  }

  /** The `beforeunload` handler: every cookie deleted, then the confirmation text returned. */
  method OnBeforeUnload(doc: CookieDocument, host: string) returns (message: string)
    modifies doc`written
    ensures doc.written == old(doc.written) + DeleteAllWrites(doc.cookie, host)
    ensures message == LeaveMessage
  {
    doc.DeleteAll(host);
    message := LeaveMessage;
  }

  /** The `visibilitychange` handler. */
  method OnVisibilityChange(doc: CookieDocument, state: VisibilityState, now: int, host: string)
    modifies doc`written
    ensures doc.written == old(doc.written) + VisibilityWrites(doc.cookie, host, state, now, doc.utc)
  {
    if state == Hidden {
      doc.Set(TabHiddenTimeCookie, Some(IntToString(now)), 0, now);
    } else if state == Visible {
      var hiddenTime := doc.Get(TabHiddenTimeCookie);
      if hiddenTime.Some? && hiddenTime.value != "" {
        var parsed := ParseInt(hiddenTime.value);
        if parsed.Some? && now - parsed.value > ThirtyMinutes {
          doc.DeleteAll(host);
        }
      }
    }
  }

  /** The `focus` handler: the session flag is written again when it reads as absent or empty. */
  method OnFocus(doc: CookieDocument, now: int)
    modifies doc`written
    ensures doc.written == old(doc.written) + FocusWrites(doc.cookie, now, doc.utc)
  {
    var sessionActive := doc.Get(SessionActiveCookie);
    if !(sessionActive.Some? && sessionActive.value != "") {
      doc.Set(SessionActiveCookie, Some("true"), 0, now);
    }
  }

  /** One tick of the five-minute interval: a last-activity cookie, only while the page is visible. */
  method OnHeartbeat(doc: CookieDocument, state: VisibilityState, now: int)
    modifies doc`written
    ensures state == Visible ==> doc.written == old(doc.written) + [SetCookieString(LastActivityCookie, Some(IntToString(now)), 0, now, doc.utc)]
    ensures state != Visible ==> doc.written == old(doc.written)
  {
    if state == Visible {
      doc.Set(LastActivityCookie, Some(IntToString(now)), 0, now);
    }
  }

  // ----- properties of the policy -----

  lemma NoSemicolonInIntToString(n: int)
    ensures ';' !in IntToString(n) && IntToString(n) != ""
  {
    var m: nat := if n < 0 then -n else n;
    var digits := NatToDecimal(m);
    assert forall i :: 0 <= i < |digits| ==> digits[i] != ';';
  }

  /**
   * Becoming hidden writes exactly one cookie, a session cookie whose
   * `name=value` part is the hidden-time name and `now` in decimal, which
   * the visible-again check reads back as `now`.
   */
  lemma HiddenRecordsNow(jar: string, host: string, now: int, utc: int -> string)
    ensures |VisibilityWrites(jar, host, Hidden, now, utc)| == 1
    ensures var w := VisibilityWrites(jar, host, Hidden, now, utc)[0];
      Split(w, ';')[0] == TabHiddenTimeCookie + "=" + IntToString(now) &&
      CookieValue(w, TabHiddenTimeCookie) == Some(IntToString(now)) &&
      Truthy(CookieValue(w, TabHiddenTimeCookie)) &&
      ParseInt(CookieValue(w, TabHiddenTimeCookie).value) == Some(now)
  {
    NoSemicolonInIntToString(now);
    SetCookieSegments(TabHiddenTimeCookie, Some(IntToString(now)), 0, now, utc);
    SetThenGet(TabHiddenTimeCookie, Some(IntToString(now)), 0, now, utc);
    ParseIntOfIntToString(now);
  }

  /** With the hidden time `t0` stored in a well-formed jar, it is too long at `now` iff `now - t0 > 30*60*1000`. */
  lemma {:induction false} HiddenTooLongOfJar(pairs: seq<(string, string)>, k: nat, t0: int, now: int)
    requires WellFormedJar(pairs) && k < |pairs| && pairs[k] == (TabHiddenTimeCookie, IntToString(t0))
    ensures HiddenTooLong(JarString(pairs), now) <==> now - t0 > ThirtyMinutes
  {
    GetOfJar(pairs, k);
    NoSemicolonInIntToString(t0);
    ParseIntOfIntToString(t0);
  }

  /** Once the stored time is too old, it stays too old at every later time. */
  lemma HiddenTooLongLater(jar: string, now: int, later: int)
    requires HiddenTooLong(jar, now) && now <= later
    ensures HiddenTooLong(jar, later)
  {
  }

  /**
   * Hidden at `t0`, visible at `t1`: with the hidden time stored in a
   * well-formed jar, becoming visible issues every `deleteAll` write when
   * `t1 - t0 > 30*60*1000` and writes nothing otherwise.
   */
  lemma {:induction false} HiddenThenVisible(pairs: seq<(string, string)>, k: nat, t0: int, t1: int, host: string, utc: int -> string)
    requires WellFormedJar(pairs) && k < |pairs| && pairs[k] == (TabHiddenTimeCookie, IntToString(t0))
    ensures VisibilityWrites(JarString(pairs), host, Visible, t1, utc)
      == if t1 - t0 > 1800000 then DeleteAllWrites(JarString(pairs), host) else []
  {
    HiddenTooLongOfJar(pairs, k, t0, t1);
  }

  /** Without a stored hidden time, becoming visible writes nothing. */
  lemma {:induction false} VisibleWithoutHiddenTime(pairs: seq<(string, string)>, host: string, now: int, utc: int -> string)
    requires WellFormedJar(pairs)
    requires forall j :: 0 <= j < |pairs| ==> pairs[j].0 != TabHiddenTimeCookie
    ensures VisibilityWrites(JarString(pairs), host, Visible, now, utc) == []
  {
    GetAbsentFromJar(pairs, TabHiddenTimeCookie);
  }

  /**
   * On focus, in a well-formed jar, nothing is written iff the session flag
   * is present with a non-empty value; otherwise exactly the flag
   * `mtb_session_active=true` is written again.
   */
  lemma {:induction false} FocusRestoresFlag(pairs: seq<(string, string)>, now: int, utc: int -> string)
    requires WellFormedJar(pairs)
    ensures FocusWrites(JarString(pairs), now, utc) == [] <==>
      exists k :: 0 <= k < |pairs| && pairs[k].0 == SessionActiveCookie && pairs[k].1 != ""
    ensures FocusWrites(JarString(pairs), now, utc) != [] ==>
      FocusWrites(JarString(pairs), now, utc) == [SetCookieString(SessionActiveCookie, Some("true"), 0, now, utc)]
  {
    if k :| 0 <= k < |pairs| && pairs[k].0 == SessionActiveCookie {
      GetOfJar(pairs, k);
    } else {
      GetAbsentFromJar(pairs, SessionActiveCookie);
    }
  }
}
