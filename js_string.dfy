/**
 * The few JavaScript string primitives the scripts rely on, over `seq<char>`:
 * `split` by a one-character separator, `join`, `indexOf`, `includes`,
 * `trim`, and the "strip leading blanks" loop of the cookie reader.
 */
module JsString {

  lemma ConcatAssoc<T>(a: seq<T>, b: seq<T>, c: seq<T>)
    ensures (a + b) + c == a + (b + c)
  {
  }

  /** `s.startsWith(p)`. */
  predicate StartsWith(s: string, p: string) {
    |p| <= |s| && s[..|p|] == p
  }

  /** `p` occurs in `s` at position `j`. */
  predicate At(s: string, j: int, p: string) {
    0 <= j && j + |p| <= |s| && s[j..j + |p|] == p
  }

  lemma AtShift(s: string, j: int, p: string)
    requires |s| > 0 && 0 <= j
    ensures At(s, j + 1, p) <==> At(s[1..], j, p)
  {
    if j + 1 + |p| <= |s| {
      assert s[j + 1..j + 1 + |p|] == s[1..][j..j + |p|];
    }
  }

  /** `s.indexOf(p)`: the first position where `p` occurs, or -1. */
  function IndexOf(s: string, p: string): (r: int)
    ensures r == -1 || At(s, r, p)
    ensures r == -1 <==> forall j :: 0 <= j <= |s| ==> !At(s, j, p)
    ensures r >= 0 ==> forall j :: 0 <= j < r ==> !At(s, j, p)
    ensures r == 0 <==> StartsWith(s, p)
    decreases |s|
  {
    if |p| > |s| then -1
    else if s[..|p|] == p then 0
    else
      var k := IndexOf(s[1..], p);
      assert forall j :: 0 <= j ==> (At(s, j + 1, p) <==> At(s[1..], j, p)) by {
        forall j | 0 <= j ensures At(s, j + 1, p) <==> At(s[1..], j, p) { AtShift(s, j, p); }
      }
      assert !At(s, 0, p);
      assert forall j :: 1 <= j <= |s| ==> (At(s, j, p) <==> At(s[1..], j - 1, p));
      if k == -1 then -1 else k + 1
  }

  /** `s.includes(p)`: `p` occurs somewhere in `s`. */
  predicate Includes(s: string, p: string): (b: bool)
    ensures b <==> exists j :: At(s, j, p)
  {
    IndexOf(s, p) != -1
  }

  /** The first occurrence of a one-character pattern is the first position of that character. */
  lemma {:induction false} IndexOfFirstChar(a: string, c: char, b: string)
    requires c !in a
    ensures IndexOf(a + [c] + b, [c]) == |a|
  {
    var s := a + [c] + b;
    if a == [] {
      assert s[..1] == [c];
    } else {
      assert s[..1] != [c] by { assert s[0] == a[0] != c; }
      assert s[1..] == a[1..] + [c] + b;
      IndexOfFirstChar(a[1..], c, b);
    }
  }

  /** `s.split(d)` for a one-character separator `d`: the pieces between separators, never empty. */
  function Split(s: string, d: char): (parts: seq<string>)
    ensures |parts| >= 1
    ensures forall i :: 0 <= i < |parts| ==> d !in parts[i]
    decreases |s|
  {
    if s == [] then [[]]
    else
      var rest := Split(s[1..], d);
      if s[0] == d then [[]] + rest else [[s[0]] + rest[0]] + rest[1..]
  }

  /** `s.endsWith(p)`. */
  predicate EndsWith(s: string, p: string) {
    |p| <= |s| && s[|s| - |p|..] == p
  }

  /** `parts.join(sep)`. */
  function Join(parts: seq<string>, sep: string): string
    decreases |parts|
  {
    if parts == [] then []
    else if |parts| == 1 then parts[0]
    else parts[0] + sep + Join(parts[1..], sep)
  }

  lemma PrefixOfConcat(a: string, b: string)
    ensures StartsWith(a + b, a)
  {
    assert (a + b)[..|a|] == a;
  }

  lemma StartsWithShorter(s: string, p: string, q: string)
    requires StartsWith(s, p + q)
    ensures StartsWith(s, p)
  {
    assert s[..|p|] == s[..|p + q|][..|p|];
  }

  lemma EndsWithConcat(s: string, t: string, p: string)
    requires EndsWith(t, p)
    ensures EndsWith(s + t, p)
  {
    assert (s + t)[|s + t| - |p|..] == t[|t| - |p|..];
  }

  /** A join starts with the first part followed by the separator, and ends with the last part. */
  lemma {:induction false} JoinEnds(parts: seq<string>, sep: string)
    requires |parts| >= 1
    ensures StartsWith(Join(parts, sep), parts[0])
    ensures EndsWith(Join(parts, sep), parts[|parts| - 1])
    ensures |parts| >= 2 ==> StartsWith(Join(parts, sep), parts[0] + sep)
    decreases |parts|
  {
    if |parts| == 1 {
      PrefixOfConcat(parts[0], []);
      assert parts[0] + [] == parts[0];
      assert parts[0][0..] == parts[0];
    } else {
      var head := parts[0] + sep;
      var tail := Join(parts[1..], sep);
      assert Join(parts, sep) == head + tail;
      PrefixOfConcat(head, tail);
      StartsWithShorter(head + tail, parts[0], sep);
      JoinEnds(parts[1..], sep);
      assert parts[1..][|parts[1..]| - 1] == parts[|parts| - 1];
      EndsWithConcat(head, tail, parts[|parts| - 1]);
    }
  }

  lemma {:induction false} SplitNoSeparator(a: string, d: char)
    requires d !in a
    ensures Split(a, d) == [a]
    decreases |a|
  {
    if a != [] {
      SplitNoSeparator(a[1..], d);
      assert [a[0]] + a[1..] == a;
    }
  }

  /** Splitting at the first separator peels off the piece before it. */
  lemma {:induction false} SplitAtFirst(a: string, d: char, b: string)
    requires d !in a
    ensures Split(a + [d] + b, d) == [a] + Split(b, d)
    decreases |a|
  {
    var s := a + [d] + b;
    if a == [] {
      assert s[1..] == b;
    } else {
      assert s[1..] == a[1..] + [d] + b;
      SplitAtFirst(a[1..], d, b);
      assert [a[0]] + a[1..] == a;
    }
  }

  /** `split` undoes `join` when no piece contains the separator. */
  lemma {:induction false} SplitJoin(parts: seq<string>, d: char)
    requires |parts| >= 1
    requires forall i :: 0 <= i < |parts| ==> d !in parts[i]
    ensures Split(Join(parts, [d]), d) == parts
    decreases |parts|
  {
    if |parts| == 1 {
      SplitNoSeparator(parts[0], d);
    } else {
      SplitJoin(parts[1..], d);
      SplitAtFirst(parts[0], d, Join(parts[1..], [d]));
      assert [parts[0]] + parts[1..] == parts;
    }
  }

  /** `join` undoes `split`. */
  lemma {:induction false} JoinSplit(s: string, d: char)
    ensures Join(Split(s, d), [d]) == s
    decreases |s|
  {
    if s != [] {
      JoinSplit(s[1..], d);
      var rest := Split(s[1..], d);
      if s[0] != d {
        if |rest| > 1 {
          ConcatAssoc([s[0]], rest[0], [d]);
          ConcatAssoc([s[0]], rest[0] + [d], Join(rest[1..], [d]));
        }
        assert [s[0]] + s[1..] == s;
      }
    }
  }

  /** Each piece prefixed by one blank. */
  function Blanked(xs: seq<string>): (ys: seq<string>)
    ensures |ys| == |xs|
    ensures forall i :: 0 <= i < |xs| ==> ys[i] == " " + xs[i]
  {
    if xs == [] then [] else [" " + xs[0]] + Blanked(xs[1..])
  }

  /** Joining with `"; "` is joining with `";"` after prefixing every later piece with a blank. */
  lemma {:induction false} JoinWithBlank(xs: seq<string>)
    requires |xs| >= 1
    ensures " " + Join(xs, "; ") == Join(Blanked(xs), ";")
    decreases |xs|
  {
    if |xs| > 1 {
      JoinWithBlank(xs[1..]);
      assert Blanked(xs)[1..] == Blanked(xs[1..]);
    }
  }

  lemma {:induction false} JoinBlankJoined(xs: seq<string>)
    requires |xs| >= 1
    ensures Join([xs[0]] + Blanked(xs[1..]), ";") == Join(xs, "; ")
  {
    var parts := [xs[0]] + Blanked(xs[1..]);
    if |xs| > 1 {
      JoinWithBlank(xs[1..]);
      assert parts[1..] == Blanked(xs[1..]);
      var tail := Join(xs[1..], "; ");
      assert Join(parts, ";") == xs[0] + ";" + (" " + tail);
      assert xs[0] + ";" + (" " + tail) == xs[0] + "; " + tail;
    }
  }

  /** The pieces `split(';')` sees in a `"; "`-joined string. */
  lemma {:induction false} SplitBlankJoined(xs: seq<string>)
    requires |xs| >= 1
    requires forall i :: 0 <= i < |xs| ==> ';' !in xs[i]
    ensures Split(Join(xs, "; "), ';') == [xs[0]] + Blanked(xs[1..])
  {
    var parts := [xs[0]] + Blanked(xs[1..]);
    JoinBlankJoined(xs);
    forall i | 0 <= i < |parts| ensures ';' !in parts[i] {
      if i > 0 { assert parts[i] == " " + xs[i]; }
    }
    SplitJoin(parts, ';');
  }

  /** `while (c.charAt(0) === ' ') c = c.substring(1)`: drop leading blanks (only U+0020). */
  function StripLeadingSpaces(c: string): (r: string)
    ensures |r| == 0 || r[0] != ' '
    ensures exists k :: 0 <= k <= |c| && r == c[k..]
    ensures forall i :: 0 <= i < |c| - |r| ==> c[i] == ' '
    decreases |c|
  {
    if |c| > 0 && c[0] == ' ' then
      var r := StripLeadingSpaces(c[1..]);
      ghost var k :| 0 <= k <= |c| - 1 && r == c[1..][k..];
      assert r == c[k + 1..];
      assert forall i :: 1 <= i < |c| - |r| ==> c[i] == c[1..][i - 1];
      r
    else
      assert c == c[0..];
      c
  }

  /** The characters `String.prototype.trim` removes: ECMAScript WhiteSpace and LineTerminator. */
  predicate IsWhiteSpace(c: char) {
    c == '\t' || c == '\n' || c == '\U{B}' || c == '\U{C}' || c == '\r' || c == ' ' ||
    c == '\U{A0}' || c == '\U{1680}' || ('\U{2000}' <= c <= '\U{200A}') ||
    c == '\U{2028}' || c == '\U{2029}' || c == '\U{202F}' || c == '\U{205F}' ||
    c == '\U{3000}' || c == '\U{FEFF}'
  }

  function TrimStart(s: string): (r: string)
    ensures |r| == 0 || !IsWhiteSpace(r[0])
    ensures |r| <= |s| && r == s[|s| - |r|..]
    ensures forall i :: 0 <= i < |s| - |r| ==> IsWhiteSpace(s[i])
    decreases |s|
  {
    if |s| > 0 && IsWhiteSpace(s[0]) then TrimStart(s[1..]) else s
  }

  function TrimEnd(s: string): (r: string)
    ensures |r| == 0 || !IsWhiteSpace(r[|r| - 1])
    ensures |r| <= |s| && r == s[..|r|]
    ensures forall i :: |r| <= i < |s| ==> IsWhiteSpace(s[i])
    decreases |s|
  {
    if |s| > 0 && IsWhiteSpace(s[|s| - 1]) then TrimEnd(s[..|s| - 1]) else s
  }

  /** `s.trim()`. */
  function Trim(s: string): string {
    TrimEnd(TrimStart(s))
  }

  /** `r` is the slice of `s` at `i`, and everything of `s` around it is white space. */
  predicate BetweenWhiteSpace(s: string, i: int, r: string) {
    0 <= i && i + |r| <= |s| && s[i..i + |r|] == r &&
    (forall k :: 0 <= k < i ==> IsWhiteSpace(s[k])) &&
    (forall k :: i + |r| <= k < |s| ==> IsWhiteSpace(s[k]))
  }

  /** Where a prefix `r` of the suffix `s[i..]` sits in `s`. */
  lemma PrefixOfSuffix<T>(s: seq<T>, i: nat, t: seq<T>, r: seq<T>)
    requires i <= |s| && t == s[i..] && |r| <= |t| && r == t[..|r|]
    ensures s[i..i + |r|] == r
    ensures forall k :: i + |r| <= k < |s| ==> s[k] == t[k - i]
    ensures |r| > 0 ==> r[0] == t[0]
  {
  }

  /** `trim` removes exactly the white space at both ends: what is left is an inner slice that neither starts nor ends with white space. */
  lemma TrimInnerSlice(s: string)
    ensures var r := Trim(s); |r| == 0 || (!IsWhiteSpace(r[0]) && !IsWhiteSpace(r[|r| - 1]))
    ensures exists i :: BetweenWhiteSpace(s, i, Trim(s))
  {
    var t := TrimStart(s);
    var r := TrimEnd(t);
    var i := |s| - |t|;
    PrefixOfSuffix(s, i, t, r);
    assert BetweenWhiteSpace(s, i, r);
  }

  /** `trim` adds no character: a character absent from `s` is absent from `s.trim()`. */
  lemma TrimKeepsAbsent(s: string, c: char)
    requires c !in s
    ensures c !in Trim(s)
  {
    TrimInnerSlice(s);
    var r := Trim(s);
    var i :| BetweenWhiteSpace(s, i, r);
    forall k | 0 <= k < |r| ensures r[k] != c {
      assert r[k] == s[i..i + |r|][k] == s[i + k];
    }
  }

  /** A string that neither starts nor ends with white space is its own trim, even after a leading blank. */
  lemma TrimBlankPrefixed(n: string)
    requires |n| > 0 && !IsWhiteSpace(n[0]) && !IsWhiteSpace(n[|n| - 1])
    ensures Trim(n) == n && Trim(" " + n) == n
  {
    assert (" " + n)[1..] == n;
  }
}
