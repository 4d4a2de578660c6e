/**
 * The landing page's `CookieManager` (script.js): the strings its `set`,
 * `delete` and `deleteAll` assign to `document.cookie`, the way its `get`
 * reads a value back out of the `document.cookie` string, and a
 * `CookieDocument` class holding that string and the log of assignments.
 *
 * Only the assignments are modelled, not what the browser's cookie jar
 * does with them: `cookie` is what reading `document.cookie` returns, and
 * every assignment is appended to `written`.
 */
module CookieManager {
  import opened Wrappers
  import opened JsString

  const MsPerDay := 24 * 60 * 60 * 1000

  /** The attribute texts the writes are built from, as `split(';')` shows them. */
  const ExpiresLabel := " expires="
  const ExpiresPast := " expires=Thu, 01 Jan 1970 00:00:01 GMT"
  const RootPath := " path=/"
  const DomainLabel := " domain="
  const SameSiteStrict := " SameSite=Strict"

  /** The same attributes with their `;` separator, as the writes append them. */
  const ExpiredAttribute := ";" + ExpiresPast
  const PathAttribute := ";" + RootPath
  const DomainAttribute := ";" + DomainLabel
  const SameSiteAttribute := ";" + SameSiteStrict

  /** `value || ""`. */
  function ValueOrEmpty(value: Option<string>): string {
    match value
    case None => ""
    case Some(v) => v
  }

  /** The milliseconds-since-epoch expiry `set` computes for a nonzero `days`. */
  function ExpiryMillis(now: int, days: int): int {
    now + days * MsPerDay
  }

  /**
   * The string `CookieManager.set(name, value, days)` assigns at time `now`;
   * `utc` stands for `Date.prototype.toUTCString`, whose formatting is not modelled.
   */
  function SetCookieString(name: string, value: Option<string>, days: int, now: int, utc: int -> string): string {
    name + "=" + ValueOrEmpty(value) + (if days != 0 then ";" + ExpiresLabel + utc(ExpiryMillis(now, days)) else "")
      + PathAttribute + SameSiteAttribute
  }

  /** The string `CookieManager.delete(name)` assigns; `deleteAll` writes it twice per name. */
  function DeleteCookieString(name: string): string {
    name + "=" + ExpiredAttribute + PathAttribute + SameSiteAttribute
  }

  /** A delete write scoped to `domain`. */
  function DomainDeleteString(name: string, domain: string): string {
    name + "=" + ExpiredAttribute + PathAttribute + DomainAttribute + domain + SameSiteAttribute
  }

  /** `c` (with leading blanks removed) begins with `key`: `c.indexOf(nameEQ) === 0`. */
  predicate SegmentMatches(segment: string, key: string) {
    IndexOf(StripLeadingSpaces(segment), key) == 0
  }

  /** The text after `key` in the first segment that begins with `key` once its leading blanks are gone. */
  function FirstMatch(segments: seq<string>, key: string): Option<string>
    decreases |segments|
  {
    if segments == [] then None
    else
      var c := StripLeadingSpaces(segments[0]);
      if IndexOf(c, key) == 0 then Some(c[|key|..]) else FirstMatch(segments[1..], key)
  }

  /** What `CookieManager.get(name)` returns for the `document.cookie` string `jar`. */
  function CookieValue(jar: string, name: string): Option<string> {
    FirstMatch(Split(jar, ';'), name + "=")
  }

  /** The name `deleteAll` takes from one `;`-segment: the trimmed text before the first `=`, or the whole trimmed segment. */
  function SegmentName(segment: string): string {
    var eqPos := IndexOf(segment, "=");
    if eqPos > -1 then Trim(segment[..eqPos]) else Trim(segment)
  }

  /** The hostname has more than two dot-separated labels. */
  predicate IsSubdomain(host: string) {
    |Split(host, '.')| > 2
  }

  /** `'.' + hostParts.slice(-2).join('.')`. */
  function ParentDomain(host: string): string
    requires IsSubdomain(host)
  {
    var hostParts := Split(host, '.');
    "." + Join(hostParts[|hostParts| - 2..], ".")
  }

  /** The writes `deleteAll` issues for one nonempty name. */
  function NameDeletes(name: string, host: string): seq<string> {
    [DeleteCookieString(name), DeleteCookieString(name), DomainDeleteString(name, host)]
      + (if IsSubdomain(host) then [DomainDeleteString(name, ParentDomain(host))] else [])
  }

  /** The writes `deleteAll` issues for one segment: none when its name is empty. */
  function SegmentWrites(segment: string, host: string): seq<string> {
    var name := SegmentName(segment);
    if name == "" then [] else NameDeletes(name, host)
  }

  /** The writes `deleteAll` issues for a run of segments, in order. */
  function SegmentsWrites(segments: seq<string>, host: string): seq<string>
    decreases |segments|
  {
    if segments == [] then [] else SegmentWrites(segments[0], host) + SegmentsWrites(segments[1..], host)
  }

  /** Every write `CookieManager.deleteAll()` issues for the `document.cookie` string `jar` on `host`. */
  function DeleteAllWrites(jar: string, host: string): seq<string> {
    SegmentsWrites(Split(jar, ';'), host)
  }

  /** The browser-side state the cookie manager reads and writes. */
  class CookieDocument {
    /** What reading `document.cookie` returns; the browser, not this model, maintains it. */
    var cookie: string
    /** Every string assigned to `document.cookie`, oldest first. */
    var written: seq<string>
    /** `Date.prototype.toUTCString`, given by the environment. */
    const utc: int -> string

    constructor (jar: string, utc: int -> string)
      ensures cookie == jar && written == [] && this.utc == utc
    {
      cookie := jar;
      written := [];
      this.utc := utc;
    }

    /** `CookieManager.set(name, value, days)` at time `now`. */
    method Set(name: string, value: Option<string>, days: int, now: int)
      modifies this`written
      ensures written == old(written) + [SetCookieString(name, value, days, now, utc)]
    {
      var expires := "";
      if days != 0 {
        var date := now + days * 24 * 60 * 60 * 1000;
        expires := ";" + ExpiresLabel + utc(date);
      }
      written := written + [name + "=" + ValueOrEmpty(value) + expires + PathAttribute + SameSiteAttribute];
    }

    /** `CookieManager.get(name)`. */
    method Get(name: string) returns (r: Option<string>)
      ensures r == CookieValue(cookie, name)
    {
      var nameEQ := name + "=";
      var ca := Split(cookie, ';');
      var i := 0;
      while i < |ca|
        invariant 0 <= i <= |ca|
        invariant FirstMatch(ca[i..], nameEQ) == FirstMatch(ca, nameEQ)
      {
        var c := ca[i];
        while |c| > 0 && c[0] == ' '
          invariant StripLeadingSpaces(c) == StripLeadingSpaces(ca[i])
        {
          c := c[1..];
        }
        assert ca[i..][0] == ca[i] && ca[i..][1..] == ca[i + 1..];
        if IndexOf(c, nameEQ) == 0 {
          return Some(c[|nameEQ|..]);
        }
        i := i + 1;
      }
      return None;
    }

    /** `CookieManager.delete(name)`. */
    method Delete(name: string)
      modifies this`written
      ensures written == old(written) + [DeleteCookieString(name)]
    {
      written := written + [name + "=" + ExpiredAttribute + PathAttribute + SameSiteAttribute];
    }

    /** The cookie writes of `CookieManager.deleteAll()` on the page served from `host`. */
    method DeleteAll(host: string)
      modifies this`written
      ensures written == old(written) + DeleteAllWrites(cookie, host)
    {
      var cookies := Split(cookie, ';');
      var i := 0;
      assert cookies[0..] == cookies;
      while i < |cookies|
        invariant 0 <= i <= |cookies|
        invariant written + SegmentsWrites(cookies[i..], host) == old(written) + SegmentsWrites(cookies, host)
      {
        ghost var before := written;
        DeleteSegment(cookies[i], host);
        assert cookies[i..][0] == cookies[i] && cookies[i..][1..] == cookies[i + 1..];
        ConcatAssoc(before, SegmentWrites(cookies[i], host), SegmentsWrites(cookies[i + 1..], host));
        i := i + 1;
      }
    }

    /** One iteration of the `deleteAll` loop: the deletes for one `;`-segment of `document.cookie`. */
    method DeleteSegment(segment: string, host: string)
      modifies this`written
      ensures written == old(written) + SegmentWrites(segment, host)
    {
      var eqPos := IndexOf(segment, "=");
      var name := if eqPos > -1 then Trim(segment[..eqPos]) else Trim(segment);
      assert name == SegmentName(segment);
      if name != "" {
        DeleteName(name, host);
      }
    }

    /** The deletes of the `deleteAll` loop for one nonempty name. */
    method DeleteName(name: string, host: string)
      modifies this`written
      ensures written == old(written) + NameDeletes(name, host)
    {
      ghost var deletes := NameDeletes(name, host);
      // for the current path, then for the root path: the same write twice
      written := written + [DeleteCookieString(name)];
      written := written + [DeleteCookieString(name)];
      // for the current domain
      written := written + [DomainDeleteString(name, host)];
      ghost var firstThree := deletes[..3];
      assert written == old(written) + firstThree;
      var hostParts := Split(host, '.');
      if |hostParts| > 2 {
        // for the parent domain
        var parentDomain := "." + Join(hostParts[|hostParts| - 2..], ".");
        written := written + [DomainDeleteString(name, parentDomain)];
        assert deletes == firstThree + [DomainDeleteString(name, parentDomain)];
        ConcatAssoc(old(written), firstThree, [DomainDeleteString(name, parentDomain)]);
      } else {
        assert deletes == firstThree;
      }
    }
  }
}
