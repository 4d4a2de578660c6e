/**
 * What `CookieManager` promises about the strings it reads and writes:
 * `get` finds the first matching segment, reads back what `set` wrote and
 * what a well-formed `document.cookie` holds; the attribute list of each
 * write; and exactly which deletes `deleteAll` issues for every name.
 */
module CookieProperties {
  import opened Wrappers
  import opened JsString
  import opened CookieManager

  // ----- get -----

  /** The first segment that matches `key` decides what `get` returns. */
  lemma {:induction false} FirstMatchAt(segments: seq<string>, key: string, k: nat)
    requires k < |segments| && SegmentMatches(segments[k], key)
    requires forall j :: 0 <= j < k ==> !SegmentMatches(segments[j], key)
    ensures StartsWith(StripLeadingSpaces(segments[k]), key)
    ensures FirstMatch(segments, key) == Some(StripLeadingSpaces(segments[k])[|key|..])
    decreases k
  {
    if k > 0 {
      assert !SegmentMatches(segments[0], key);
      assert forall j :: 0 <= j < k - 1 ==> segments[1..][j] == segments[j + 1];
      FirstMatchAt(segments[1..], key, k - 1);
    }
  }

  /** `get` returns `null` exactly when no segment matches. */
  lemma {:induction false} FirstMatchNone(segments: seq<string>, key: string)
    ensures FirstMatch(segments, key) == None <==> forall j :: 0 <= j < |segments| ==> !SegmentMatches(segments[j], key)
    decreases |segments|
  {
    if segments != [] {
      FirstMatchNone(segments[1..], key);
      assert forall j :: 1 <= j < |segments| ==> segments[j] == segments[1..][j - 1];
    }
  }

  /** A cookie name as a browser presents it: no `=`, no `;`, no leading blank. */
  predicate PlainName(n: string) {
    '=' !in n && ';' !in n && (|n| > 0 ==> n[0] != ' ')
  }

  function PairText(p: (string, string)): string {
    p.0 + "=" + p.1
  }

  function PairTexts(pairs: seq<(string, string)>): (texts: seq<string>)
    ensures |texts| == |pairs|
    ensures forall i :: 0 <= i < |pairs| ==> texts[i] == PairText(pairs[i])
  {
    seq(|pairs|, i requires 0 <= i < |pairs| => PairText(pairs[i]))
  }

  /** The `document.cookie` string a browser shows for the given name/value pairs: `n1=v1; n2=v2; ...`. */
  function JarString(pairs: seq<(string, string)>): string {
    Join(PairTexts(pairs), "; ")
  }

  /** Distinct plain names, and no value containing `;`. */
  predicate WellFormedJar(pairs: seq<(string, string)>) {
    |pairs| >= 1 &&
    (forall i :: 0 <= i < |pairs| ==> PlainName(pairs[i].0) && ';' !in pairs[i].1) &&
    (forall i, j :: 0 <= i < j < |pairs| ==> pairs[i].0 != pairs[j].0)
  }

  lemma StripPairText(n: string, v: string)
    requires PlainName(n)
    ensures StripLeadingSpaces(n + "=" + v) == n + "=" + v
    ensures StripLeadingSpaces(" " + (n + "=" + v)) == n + "=" + v
  {
    var t := n + "=" + v;
    assert t[0] != ' ' by { if n == [] { assert t[0] == '='; } else { assert t[0] == n[0]; } }
    assert (" " + t)[1..] == t;
  }

  lemma PairTextPlain(p: (string, string))
    requires ';' !in p.0 && ';' !in p.1
    ensures ';' !in PairText(p)
  {
  }

  /** The segments of a jar of plain names, once their leading blanks are gone, are its `name=value` texts. */
  lemma JarSegments(pairs: seq<(string, string)>)
    requires |pairs| >= 1
    requires forall i :: 0 <= i < |pairs| ==> PlainName(pairs[i].0) && ';' !in pairs[i].1
    ensures |Split(JarString(pairs), ';')| == |pairs|
    ensures forall j :: 0 <= j < |pairs| ==> StripLeadingSpaces(Split(JarString(pairs), ';')[j]) == PairText(pairs[j])
  {
    var texts := PairTexts(pairs);
    forall i | 0 <= i < |texts| ensures ';' !in texts[i] {
      PairTextPlain(pairs[i]);
    }
    SplitBlankJoined(texts);
    var segments := Split(JarString(pairs), ';');
    var blanked := Blanked(texts[1..]);
    assert segments == [texts[0]] + blanked;
    forall j | 0 <= j < |pairs| ensures StripLeadingSpaces(segments[j]) == PairText(pairs[j]) {
      StripPairText(pairs[j].0, pairs[j].1);
      if j > 0 {
        assert segments[j] == blanked[j - 1] == " " + texts[j];
      }
    }
  }

  /** `nj=vj` begins with `nk=` only when the names are equal: a name that is a proper prefix of another never matches it. */
  lemma NameKeyMatch(nj: string, vj: string, nk: string)
    requires '=' !in nj && '=' !in nk
    ensures StartsWith(nj + "=" + vj, nk + "=") <==> nj == nk
  {
    var t := nj + "=" + vj;
    var key := nk + "=";
    assert t[..|nj|] == nj && t[|nj|] == '=';
    if nj == nk {
      assert t[..|key|] == key;
    } else if |nk| < |nj| {
      assert t[|nk|] == nj[|nk|] != key[|nk|];
    } else if |nk| == |nj| {
      assert key[..|nk|] == nk;
    } else {
      assert |key| <= |t| ==> key[|nj|] == nk[|nj|] != t[|nj|];
    }
  }

  /** Round trip: in a well-formed jar, `get(n_k)` returns `v_k`, not decoded. */
  lemma {:induction false} GetOfJar(pairs: seq<(string, string)>, k: nat)
    requires WellFormedJar(pairs) && k < |pairs|
    ensures CookieValue(JarString(pairs), pairs[k].0) == Some(pairs[k].1)
  {
    var segments := Split(JarString(pairs), ';');
    var key := pairs[k].0 + "=";
    JarSegments(pairs);
    forall j | 0 <= j < |pairs| ensures SegmentMatches(segments[j], key) <==> j == k {
      NameKeyMatch(pairs[j].0, pairs[j].1, pairs[k].0);
    }
    FirstMatchAt(segments, key, k);
    assert PairText(pairs[k])[|key|..] == pairs[k].1;
  }

  /** A name not in a well-formed jar reads as `null`. */
  lemma {:induction false} GetAbsentFromJar(pairs: seq<(string, string)>, name: string)
    requires WellFormedJar(pairs) && '=' !in name
    requires forall j :: 0 <= j < |pairs| ==> pairs[j].0 != name
    ensures CookieValue(JarString(pairs), name) == None
  {
    var segments := Split(JarString(pairs), ';');
    JarSegments(pairs);
    forall j | 0 <= j < |segments| ensures !SegmentMatches(segments[j], name + "=") {
      NameKeyMatch(pairs[j].0, pairs[j].1, name);
    }
    FirstMatchNone(segments, name + "=");
  }

  // ----- the strings set and delete write -----

  /*
   * The writes are `;`-joined attribute lists. These shape lemmas split such
   * lists over arbitrary pieces; the lemmas after them apply them to the
   * attribute constants.
   */

  /** Splitting at a leading `;` peels off the piece before it. */
  lemma SplitCons(a: string, rest: string)
    requires ';' !in a
    ensures Split(a + (";" + rest), ';') == [a] + Split(rest, ';')
  {
    SplitAtFirst(a, ';', rest);
    ConcatAssoc(a, ";", rest);
  }

  lemma SplitThree(a: string, b: string, c: string)
    requires ';' !in a && ';' !in b && ';' !in c
    ensures Split(a + (";" + b) + (";" + c), ';') == [a, b, c]
  {
    SplitNoSeparator(c, ';');
    SplitCons(b, c);
    var t := b + (";" + c);
    ConcatAssoc(a, ";", b);
    ConcatAssoc(a + ";", b, ";" + c);
    ConcatAssoc(a, ";", t);
    SplitCons(a, t);
  }

  lemma SplitFour(a: string, b: string, c: string, d: string)
    requires ';' !in a && ';' !in b && ';' !in c && ';' !in d
    ensures Split(a + (";" + b) + (";" + c) + (";" + d), ';') == [a, b, c, d]
  {
    SplitThree(b, c, d);
    var t := b + (";" + c) + (";" + d);
    ConcatAssoc(a, ";", b);
    ConcatAssoc(a + ";", b, ";" + c);
    ConcatAssoc(a + ";", b + (";" + c), ";" + d);
    ConcatAssoc(a, ";", t);
    SplitCons(a, t);
  }

  lemma SplitFive(a: string, b: string, c: string, d: string, e: string)
    requires ';' !in a && ';' !in b && ';' !in c && ';' !in d && ';' !in e
    ensures Split(a + (";" + b) + (";" + c) + (";" + d) + (";" + e), ';') == [a, b, c, d, e]
  {
    SplitFour(b, c, d, e);
    var t := b + (";" + c) + (";" + d) + (";" + e);
    ConcatAssoc(a, ";", b);
    ConcatAssoc(a + ";", b, ";" + c);
    ConcatAssoc(a + ";", b + (";" + c), ";" + d);
    ConcatAssoc(a + ";", b + (";" + c) + (";" + d), ";" + e);
    ConcatAssoc(a, ";", t);
    SplitCons(a, t);
  }

  /** The piece before the first `;` of a string. */
  lemma SplitHead(a: string, b: string)
    requires ';' !in a && |b| > 0 && b[0] == ';'
    ensures Split(a + b, ';')[0] == a
  {
    assert b == ";" + b[1..];
    SplitCons(a, b[1..]);
  }

  lemma AttributeTextsPlain()
    ensures ';' !in ExpiresLabel && ';' !in ExpiresPast && ';' !in RootPath
    ensures ';' !in DomainLabel && ';' !in SameSiteStrict
  {
  }

  /** The attribute list of a `set` write: `expires` is present iff `days` is nonzero, and is `now + days*24*60*60*1000`. */
  lemma SetCookieSegments(name: string, value: Option<string>, days: int, now: int, utc: int -> string)
    requires ';' !in name && ';' !in ValueOrEmpty(value)
    requires days != 0 ==> ';' !in utc(now + days * 86400000)
    ensures Split(SetCookieString(name, value, days, now, utc), ';') ==
      [name + "=" + ValueOrEmpty(value)]
      + (if days != 0 then [ExpiresLabel + utc(now + days * 86400000)] else [])
      + [RootPath, SameSiteStrict]
  {
    AttributeTextsPlain();
    var first := name + "=" + ValueOrEmpty(value);
    if days != 0 {
      var date := utc(ExpiryMillis(now, days));
      assert ExpiryMillis(now, days) == now + days * 86400000;
      assert first + (";" + ExpiresLabel + date) == first + (";" + (ExpiresLabel + date));
      SplitFour(first, ExpiresLabel + date, RootPath, SameSiteStrict);
    } else {
      assert first + "" == first;
      SplitThree(first, RootPath, SameSiteStrict);
    }
  }

  /** A string whose first `;`-piece is `name=v` reads back `v` for `name`. */
  lemma FirstSegmentValue(w: string, name: string, v: string)
    requires Split(w, ';')[0] == name + "=" + v && (|name| > 0 ==> name[0] != ' ')
    ensures CookieValue(w, name) == Some(v)
  {
    var first := name + "=" + v;
    assert first[0] != ' ' by { if name == [] { assert first[0] == '='; } else { assert first[0] == name[0]; } }
    assert StartsWith(first, name + "=");
    assert first[|name + "="|..] == v;
  }

  /** `set(name, value, days)` then `get(name)` on the written string gives back `value || ""`. */
  lemma SetThenGet(name: string, value: Option<string>, days: int, now: int, utc: int -> string)
    requires ';' !in name && ';' !in ValueOrEmpty(value) && (|name| > 0 ==> name[0] != ' ')
    ensures CookieValue(SetCookieString(name, value, days, now, utc), name) == Some(ValueOrEmpty(value))
  {
    var first := name + "=" + ValueOrEmpty(value);
    var expires := if days != 0 then ";" + ExpiresLabel + utc(ExpiryMillis(now, days)) else "";
    var attributes := expires + PathAttribute + SameSiteAttribute;
    assert attributes[0] == ';' by {
      if days == 0 { assert attributes == PathAttribute + SameSiteAttribute; }
    }
    ConcatAssoc(first, expires, PathAttribute);
    ConcatAssoc(first, expires + PathAttribute, SameSiteAttribute);
    SplitHead(first, attributes);
    FirstSegmentValue(SetCookieString(name, value, days, now, utc), name, ValueOrEmpty(value));
  }

  /** The attribute list of a `delete` write: an empty value, the 1970 expiry and the root path. */
  lemma DeleteCookieSegments(name: string)
    requires ';' !in name
    ensures Split(DeleteCookieString(name), ';') == [name + "=", ExpiresPast, RootPath, SameSiteStrict]
  {
    AttributeTextsPlain();
    SplitFour(name + "=", ExpiresPast, RootPath, SameSiteStrict);
  }

  /** The attribute list of a domain-scoped delete write. */
  lemma DomainDeleteSegments(name: string, domain: string)
    requires ';' !in name && ';' !in domain
    ensures Split(DomainDeleteString(name, domain), ';') ==
      [name + "=", ExpiresPast, RootPath, DomainLabel + domain, SameSiteStrict]
  {
    AttributeTextsPlain();
    var prefix := name + "=" + ExpiredAttribute + PathAttribute;
    assert prefix + DomainAttribute + domain == prefix + (";" + (DomainLabel + domain));
    SplitFive(name + "=", ExpiresPast, RootPath, DomainLabel + domain, SameSiteStrict);
  }

  // ----- deleteAll -----

  /** The parent domain is `.` and the last two labels, written only for hosts of more than two labels. */
  lemma {:induction false} ParentDomainOfLabels(labels: seq<string>)
    requires |labels| >= 1 && forall i :: 0 <= i < |labels| ==> '.' !in labels[i]
    ensures IsSubdomain(Join(labels, ".")) <==> |labels| > 2
    ensures |labels| > 2 ==> ParentDomain(Join(labels, ".")) == "." + labels[|labels| - 2] + "." + labels[|labels| - 1]
  {
    SplitJoin(labels, '.');
    if |labels| > 2 {
      var last := labels[|labels| - 2..];
      assert last[1..] == [labels[|labels| - 1]];
      assert Join(last, ".") == labels[|labels| - 2] + "." + labels[|labels| - 1];
    }
  }

  /** On any subdomain host, the parent domain is a dot followed by exactly the host's last two labels. */
  lemma ParentDomainOfHost(host: string)
    requires IsSubdomain(host)
    ensures var p := ParentDomain(host); var labels := Split(host, '.');
      |p| >= 1 && p[0] == '.' && Split(p[1..], '.') == labels[|labels| - 2..]
  {
    var labels := Split(host, '.');
    var last := labels[|labels| - 2..];
    assert ParentDomain(host)[1..] == Join(last, ".");
    SplitJoin(last, '.');
  }

  /** `indexOf("=")` is -1 exactly when there is no `=`, and the text before it has none. */
  lemma BeforeFirstEquals(segment: string)
    ensures IndexOf(segment, "=") == -1 <==> '=' !in segment
    ensures IndexOf(segment, "=") > -1 ==> '=' !in segment[..IndexOf(segment, "=")]
  {
    var eqPos := IndexOf(segment, "=");
    forall j | 0 <= j < |segment| && segment[j] == '=' ensures At(segment, j, "=") {
      assert segment[j..j + 1] == [segment[j]];
    }
    if eqPos > -1 {
      forall j | 0 <= j < eqPos ensures segment[..eqPos][j] != '=' {
        assert !At(segment, j, "=");
      }
      assert segment[eqPos] == segment[eqPos..eqPos + 1][0];
    }
  }

  /**
   * The name `deleteAll` takes from any segment contains no `=` and neither
   * starts nor ends with white space; a segment without `=` gives its trim.
   */
  lemma SegmentNameShape(segment: string)
    ensures var name := SegmentName(segment);
      '=' !in name && (|name| == 0 || (!IsWhiteSpace(name[0]) && !IsWhiteSpace(name[|name| - 1])))
    ensures '=' !in segment ==> SegmentName(segment) == Trim(segment)
  {
    BeforeFirstEquals(segment);
    var eqPos := IndexOf(segment, "=");
    var before := if eqPos > -1 then segment[..eqPos] else segment;
    assert SegmentName(segment) == Trim(before);
    TrimKeepsAbsent(before, '=');
    TrimInnerSlice(before);
  }

  /** `w` is one of the delete writes `deleteAll` issues for `name`. */
  predicate IsDeletionOf(w: string, name: string, host: string) {
    w == DeleteCookieString(name) || w == DomainDeleteString(name, host) ||
    (IsSubdomain(host) && w == DomainDeleteString(name, ParentDomain(host)))
  }

  /** Three writes per name, four on a subdomain. */
  function WritesPerName(host: string): nat {
    if IsSubdomain(host) then 4 else 3
  }

  /** How many segments yield a nonempty name. */
  function NamedCount(segments: seq<string>): nat
    decreases |segments|
  {
    if segments == [] then 0 else (if SegmentName(segments[0]) == "" then 0 else 1) + NamedCount(segments[1..])
  }

  lemma NameDeletesFacts(name: string, host: string)
    ensures |NameDeletes(name, host)| == WritesPerName(host)
    ensures forall w :: w in NameDeletes(name, host) <==> IsDeletionOf(w, name, host)
  {
  }

  lemma {:induction false} SegmentsWritesCount(segments: seq<string>, host: string)
    ensures |SegmentsWrites(segments, host)| == NamedCount(segments) * WritesPerName(host)
    decreases |segments|
  {
    if segments != [] {
      SegmentsWritesCount(segments[1..], host);
      NameDeletesFacts(SegmentName(segments[0]), host);
      var n := NamedCount(segments[1..]);
      var k := WritesPerName(host);
      MulSucc(n, k);
      assert |SegmentsWrites(segments, host)| == |SegmentWrites(segments[0], host)| + n * k;
    }
  }

  lemma MulSucc(n: nat, k: nat)
    ensures (n + 1) * k == n * k + k
  {
  }

  lemma {:induction false} SegmentsWritesSound(segments: seq<string>, host: string)
    ensures forall w :: w in SegmentsWrites(segments, host) ==>
      exists s :: s in segments && SegmentName(s) != "" && IsDeletionOf(w, SegmentName(s), host)
    decreases |segments|
  {
    if segments != [] {
      SegmentsWritesSound(segments[1..], host);
      NameDeletesFacts(SegmentName(segments[0]), host);
      assert forall s :: s in segments[1..] ==> s in segments;
      forall w | w in SegmentsWrites(segments, host)
        ensures exists s :: s in segments && SegmentName(s) != "" && IsDeletionOf(w, SegmentName(s), host)
      {
        if w in SegmentWrites(segments[0], host) {
          assert segments[0] in segments;
        } else {
          assert w in SegmentsWrites(segments[1..], host);
        }
      }
    }
  }

  lemma {:induction false} SegmentsWritesComplete(segments: seq<string>, host: string)
    ensures forall s :: s in segments && SegmentName(s) != "" ==>
      forall w :: IsDeletionOf(w, SegmentName(s), host) ==> w in SegmentsWrites(segments, host)
    decreases |segments|
  {
    if segments != [] {
      SegmentsWritesComplete(segments[1..], host);
      NameDeletesFacts(SegmentName(segments[0]), host);
      var all := SegmentsWrites(segments, host);
      assert all == SegmentWrites(segments[0], host) + SegmentsWrites(segments[1..], host);
      forall s | s in segments && SegmentName(s) != ""
        ensures forall w :: IsDeletionOf(w, SegmentName(s), host) ==> w in all
      {
        if s != segments[0] {
          assert s in segments[1..];
        }
      }
    }
  }

  /**
   * `deleteAll` on any `document.cookie` string: exactly `WritesPerName` writes
   * for every segment with a nonempty name, none for the others; every write
   * deletes one of those names, and every delete variant of every such name is written.
   */
  lemma DeleteAllCoversNames(jar: string, host: string)
    ensures |DeleteAllWrites(jar, host)| == NamedCount(Split(jar, ';')) * WritesPerName(host)
    ensures forall w :: w in DeleteAllWrites(jar, host) ==>
      exists s :: s in Split(jar, ';') && SegmentName(s) != "" && IsDeletionOf(w, SegmentName(s), host)
    ensures forall s :: s in Split(jar, ';') && SegmentName(s) != "" ==>
      forall w :: IsDeletionOf(w, SegmentName(s), host) ==> w in DeleteAllWrites(jar, host)
  {
    SegmentsWritesCount(Split(jar, ';'), host);
    SegmentsWritesSound(Split(jar, ';'), host);
    SegmentsWritesComplete(Split(jar, ';'), host);
  }

  /** A name `deleteAll` reads back unchanged: no `=`, no `;`, nonempty and not starting or ending with white space. */
  predicate TrimmedName(n: string) {
    '=' !in n && ';' !in n && |n| > 0 && !IsWhiteSpace(n[0]) && !IsWhiteSpace(n[|n| - 1])
  }

  function Names(pairs: seq<(string, string)>): (names: seq<string>)
    ensures |names| == |pairs| && forall i :: 0 <= i < |pairs| ==> names[i] == pairs[i].0
  {
    seq(|pairs|, i requires 0 <= i < |pairs| => pairs[i].0)
  }

  /** The deletes for each name in turn. */
  function DeletesFor(names: seq<string>, host: string): seq<string>
    decreases |names|
  {
    if names == [] then [] else NameDeletes(names[0], host) + DeletesFor(names[1..], host)
  }

  /** The name `deleteAll` reads from `a=v` is the trimmed text before the first `=`. */
  lemma SegmentNameBeforeEquals(a: string, v: string)
    requires '=' !in a
    ensures SegmentName(a + "=" + v) == Trim(a)
  {
    IndexOfFirstChar(a, '=', v);
    assert (a + "=" + v)[..|a|] == a;
  }

  lemma SegmentNameOfPair(p: (string, string))
    requires TrimmedName(p.0)
    ensures SegmentName(PairText(p)) == p.0 && SegmentName(" " + PairText(p)) == p.0
  {
    var n := p.0;
    SegmentNameBeforeEquals(n, p.1);
    ConcatAssoc(" ", n, "=");
    ConcatAssoc(" ", n + "=", p.1);
    SegmentNameBeforeEquals(" " + n, p.1);
    TrimBlankPrefixed(n);
  }

  lemma {:induction false} SegmentsWritesNamed(segments: seq<string>, names: seq<string>, host: string)
    requires |segments| == |names|
    requires forall i :: 0 <= i < |names| ==> names[i] != "" && SegmentName(segments[i]) == names[i]
    ensures SegmentsWrites(segments, host) == DeletesFor(names, host)
    decreases |names|
  {
    if names != [] {
      SegmentsWritesNamed(segments[1..], names[1..], host);
    }
  }

  lemma {:induction false} JarSegmentNames(pairs: seq<(string, string)>)
    requires |pairs| >= 1
    requires forall i :: 0 <= i < |pairs| ==> TrimmedName(pairs[i].0) && ';' !in pairs[i].1
    ensures |Split(JarString(pairs), ';')| == |pairs|
    ensures forall i :: 0 <= i < |pairs| ==> SegmentName(Split(JarString(pairs), ';')[i]) == pairs[i].0
  {
    var texts := PairTexts(pairs);
    forall i | 0 <= i < |texts| ensures ';' !in texts[i] {
      assert texts[i] == pairs[i].0 + "=" + pairs[i].1;
    }
    SplitBlankJoined(texts);
    var segments := Split(JarString(pairs), ';');
    forall i | 0 <= i < |pairs| ensures SegmentName(segments[i]) == pairs[i].0 {
      SegmentNameOfPair(pairs[i]);
      if i > 0 {
        assert segments[i] == " " + texts[i];
      }
    }
  }

  /** Round trip for `deleteAll`: on a jar of trimmed names it issues each name's deletes, in jar order. */
  lemma {:induction false} DeleteAllOfJar(pairs: seq<(string, string)>, host: string)
    requires |pairs| >= 1
    requires forall i :: 0 <= i < |pairs| ==> TrimmedName(pairs[i].0) && ';' !in pairs[i].1
    ensures DeleteAllWrites(JarString(pairs), host) == DeletesFor(Names(pairs), host)
    ensures |DeleteAllWrites(JarString(pairs), host)| == |pairs| * WritesPerName(host)
  {
    var segments := Split(JarString(pairs), ';');
    JarSegmentNames(pairs);
    SegmentsWritesNamed(segments, Names(pairs), host);
    SegmentsWritesCount(segments, host);
    NamedAll(segments);
  }

  lemma {:induction false} NamedAll(segments: seq<string>)
    requires forall i :: 0 <= i < |segments| ==> SegmentName(segments[i]) != ""
    ensures NamedCount(segments) == |segments|
    decreases |segments|
  {
    if segments != [] {
      NamedAll(segments[1..]);
    }
  }
}
