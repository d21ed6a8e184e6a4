/** The three Python `str` operations the subtitle code is built from:
    `s.strip()` with no argument, `s.split(sep)` with a non-empty separator,
    and `sep.join(parts)`. Strings are sequences of Unicode scalar values. */
module Strings {

  /** Python's `str.isspace` on one character: exactly the characters that
      `str.strip()` with no argument removes. */
  predicate IsSpace(c: char) {
    || ('\t' <= c <= '\r')            // tab, line feed, vertical tab, form feed, carriage return
    || ('\U{1C}' <= c <= ' ')         // the four information separators and the space
    || c == '\U{85}' || c == '\U{A0}' || c == '\U{1680}'
    || ('\U{2000}' <= c <= '\U{200A}')
    || c == '\U{2028}' || c == '\U{2029}' || c == '\U{202F}' || c == '\U{205F}' || c == '\U{3000}'
  }

  predicate AllSpace(s: string) {
    forall i :: 0 <= i < |s| ==> IsSpace(s[i])
  }

  /** Removes the leading white space. */
  function TrimStart(s: string): string
    decreases |s|
  {
    if |s| > 0 && IsSpace(s[0]) then TrimStart(s[1..]) else s
  }

  /** Removes the trailing white space. */
  function TrimEnd(s: string): string
    decreases |s|
  {
    if |s| > 0 && IsSpace(s[|s| - 1]) then TrimEnd(s[..|s| - 1]) else s
  }

  /** Python's `s.strip()`. */
  function Strip(s: string): string {
    TrimEnd(TrimStart(s))
  }

  /** `TrimStart` leaves the longest suffix of `s` that does not start with
      white space; it is empty exactly when `s` is all white space. */
  lemma {:induction false} TrimStartSpec(s: string)
    ensures var r := TrimStart(s);
      && |r| <= |s| && r == s[|s| - |r|..]
      && AllSpace(s[..|s| - |r|])
      && (r == [] || !IsSpace(r[0]))
      && (r == [] <==> AllSpace(s))
    decreases |s|
  {
    if |s| > 0 && IsSpace(s[0]) {
      TrimStartSpec(s[1..]);
      var r := TrimStart(s);
      assert s[..|s| - |r|] == [s[0]] + s[1..][..|s| - 1 - |r|];
      assert AllSpace(s[1..]) ==> AllSpace(s);
    }
  }

  /** `TrimEnd` leaves the longest prefix of `s` that does not end with white
      space; it is empty exactly when `s` is all white space. */
  lemma {:induction false} TrimEndSpec(s: string)
    ensures var r := TrimEnd(s);
      && |r| <= |s| && r == s[..|r|]
      && AllSpace(s[|r|..])
      && (r == [] || !IsSpace(r[|r| - 1]))
      && (r == [] <==> AllSpace(s))
    decreases |s|
  {
    if |s| > 0 && IsSpace(s[|s| - 1]) {
      var s' := s[..|s| - 1];
      TrimEndSpec(s');
      var r := TrimEnd(s);
      assert s[|r|..] == s'[|r|..] + [s[|s| - 1]];
      assert AllSpace(s') ==> AllSpace(s);
    }
  }

  /** What `strip()` returns: at most as long as `s`, empty exactly when `s`
      is all white space, and otherwise starting and ending with a character
      that is not white space. */
  lemma StripSpec(s: string)
    ensures |Strip(s)| <= |s|
    ensures Strip(s) == [] <==> AllSpace(s)
    ensures Strip(s) != [] ==> !IsSpace(Strip(s)[0]) && !IsSpace(Strip(s)[|Strip(s)| - 1])
  {
    var t := TrimStart(s);
    TrimStartSpec(s);
    TrimEndSpec(t);
    var r := TrimEnd(t);
    assert r != [] ==> r[0] == t[0];
    assert AllSpace(t) <==> t == [];
  }

  /** The stripped string is the part of `s` left between a white-space
      prefix and a white-space suffix. */
  lemma StripSlice(s: string) returns (i: nat)
    ensures i + |Strip(s)| <= |s| && Strip(s) == s[i..i + |Strip(s)|]
    ensures AllSpace(s[..i]) && AllSpace(s[i + |Strip(s)|..])
  {
    var t := TrimStart(s);
    TrimStartSpec(s);
    TrimEndSpec(t);
    var r := TrimEnd(t);
    i := |s| - |t|;
    assert r == t[..|r|];
    assert t[|r|..] == s[i + |r|..];
  }

  /** A string is left unchanged by `strip()` exactly when it is empty or
      starts and ends with a character that is not white space. */
  lemma StripFixed(s: string)
    ensures Strip(s) == s <==> (s == [] || (!IsSpace(s[0]) && !IsSpace(s[|s| - 1])))
  {
    StripSpec(s);
    if s != [] && !IsSpace(s[0]) && !IsSpace(s[|s| - 1]) {
      assert TrimStart(s) == s;
      assert TrimEnd(s) == s;
    }
  }

  lemma StripIdempotent(s: string)
    ensures Strip(Strip(s)) == Strip(s)
  {
    StripSpec(s);
    StripFixed(Strip(s));
  }

  /** `sep` occurs in `s` at position `i`. */
  predicate OccursAt(s: string, sep: string, i: int) {
    0 <= i && i + |sep| <= |s| && s[i..i + |sep|] == sep
  }

  /** `sep` occurs nowhere in `s`. */
  predicate Free(s: string, sep: string) {
    forall i :: 0 <= i <= |s| ==> !OccursAt(s, sep, i)
  }

  /** In `p + sep + ...` the first occurrence of `sep` is the one right after `p`;
      whether this holds depends on `p + sep` only. */
  predicate EndsBefore(p: string, sep: string) {
    forall i :: 0 <= i < |p| ==> !OccursAt(p + sep, sep, i)
  }

  /** Python's `s.split(sep)` for a non-empty `sep`: scanning from the left, the
      string is cut at each occurrence of `sep` that does not overlap an earlier
      cut. There is always at least one piece; `"".split(sep)` is `[""]`. */
  function Split(s: string, sep: string): (r: seq<string>)
    requires sep != []
    ensures |r| >= 1
    decreases |s|
  {
    if |s| < |sep| then [s]
    else if s[..|sep|] == sep then [[]] + Split(s[|sep|..], sep)
    else
      var t := Split(s[1..], sep);
      [[s[0]] + t[0]] + t[1..]
  }

  /** Python's `sep.join(parts)`. */
  function Join(parts: seq<string>, sep: string): string
    decreases |parts|
  {
    if |parts| == 0 then []
    else if |parts| == 1 then parts[0]
    else parts[0] + sep + Join(parts[1..], sep)
  }

  lemma JoinCons(p: string, parts: seq<string>, sep: string)
    requires |parts| >= 1
    ensures Join([p] + parts, sep) == p + sep + Join(parts, sep)
  {
    assert ([p] + parts)[1..] == parts;
  }

  lemma JoinTwo(a: string, b: string, sep: string)
    ensures Join([a, b], sep) == a + sep + b
  {
    assert [a, b][1..] == [b];
  }

  /** Putting a character in front of the first part puts it in front of the join. */
  lemma JoinPrepend(c: char, t: seq<string>, sep: string)
    requires |t| >= 1
    ensures Join([[c] + t[0]] + t[1..], sep) == [c] + Join(t, sep)
  {
    if |t| > 1 {
      assert t == [t[0]] + t[1..];
      JoinCons(t[0], t[1..], sep);
      JoinCons([c] + t[0], t[1..], sep);
    }
  }

  /** Joining the pieces of a split with the same separator gives the string back. */
  lemma {:induction false} JoinSplit(s: string, sep: string)
    requires sep != []
    ensures Join(Split(s, sep), sep) == s
    decreases |s|
  {
    if |s| < |sep| {
      assert Split(s, sep) == [s];
    } else if s[..|sep|] == sep {
      var t := Split(s[|sep|..], sep);
      assert Split(s, sep) == [[]] + t;
      JoinSplit(s[|sep|..], sep);
      JoinCons([], t, sep);
      assert s == sep + s[|sep|..];
    } else {
      var t := Split(s[1..], sep);
      assert Split(s, sep) == [[s[0]] + t[0]] + t[1..];
      JoinSplit(s[1..], sep);
      JoinPrepend(s[0], t, sep);
      assert s == [s[0]] + s[1..];
    }
  }

  /** The first piece of a join is a prefix of it. */
  lemma JoinHead(parts: seq<string>, sep: string)
    requires |parts| >= 1
    ensures |parts[0]| <= |Join(parts, sep)| && Join(parts, sep)[..|parts[0]|] == parts[0]
  {
  }

  /** A string in which `sep` does not occur splits into itself alone. */
  lemma {:induction false} SplitFree(s: string, sep: string)
    requires sep != [] && Free(s, sep)
    ensures Split(s, sep) == [s]
    decreases |s|
  {
    if |s| >= |sep| {
      assert !OccursAt(s, sep, 0);
      forall i | 0 <= i <= |s[1..]| ensures !OccursAt(s[1..], sep, i) {
        if i + |sep| <= |s[1..]| {
          assert s[1..][i..i + |sep|] == s[i + 1..i + 1 + |sep|];
          assert !OccursAt(s, sep, i + 1);
        }
      }
      SplitFree(s[1..], sep);
      assert s == [s[0]] + s[1..];
    }
  }

  /** `EndsBefore` passes from a string to its tail. */
  lemma EndsBeforeTail(p: string, sep: string)
    requires sep != [] && p != [] && EndsBefore(p, sep)
    ensures EndsBefore(p[1..], sep)
  {
    assert p[1..] + sep == (p + sep)[1..];
    forall i | 0 <= i < |p[1..]| ensures !OccursAt(p[1..] + sep, sep, i) {
      if i + |sep| <= |p[1..] + sep| {
        assert (p[1..] + sep)[i..i + |sep|] == (p + sep)[i + 1..i + 1 + |sep|];
        assert !OccursAt(p + sep, sep, i + 1);
      }
    }
  }

  /** Splitting `p + sep + rest` cuts exactly after `p` when `sep` does not
      start anywhere inside `p + sep` before the end of `p`. */
  lemma {:induction false} SplitAfter(p: string, sep: string, rest: string)
    requires sep != [] && EndsBefore(p, sep)
    ensures Split(p + sep + rest, sep) == [p] + Split(rest, sep)
    decreases |p|
  {
    var s := p + sep + rest;
    if p == [] {
      assert s == sep + rest;
      assert s[..|sep|] == sep && s[|sep|..] == rest;
    } else {
      assert !OccursAt(p + sep, sep, 0);
      assert s[..|sep|] == (p + sep)[..|sep|];
      EndsBeforeTail(p, sep);
      SplitAfter(p[1..], sep, rest);
      assert s[1..] == p[1..] + sep + rest;
      var t := Split(s[1..], sep);
      assert t == [p[1..]] + Split(rest, sep);
      assert Split(s, sep) == [[s[0]] + t[0]] + t[1..];
      assert [p[0]] + p[1..] == p;
    }
  }

  /** An `EndsBefore` string has no occurrence of the separator. */
  lemma EndsBeforeFree(p: string, sep: string)
    requires sep != [] && EndsBefore(p, sep)
    ensures Free(p, sep)
  {
    forall i | 0 <= i <= |p| ensures !OccursAt(p, sep, i) {
      if i + |sep| <= |p| {
        assert (p + sep)[i..i + |sep|] == p[i..i + |sep|];
        assert !OccursAt(p + sep, sep, i);
      }
    }
  }

  /** Splitting a join gives the parts back when every part but the last
      `EndsBefore` the separator and the last one does not contain it. */
  lemma {:induction false} SplitJoin(parts: seq<string>, sep: string)
    requires sep != [] && |parts| >= 1
    requires forall k :: 0 <= k < |parts| - 1 ==> EndsBefore(parts[k], sep)
    requires Free(parts[|parts| - 1], sep)
    ensures Split(Join(parts, sep), sep) == parts
    decreases |parts|
  {
    if |parts| == 1 {
      SplitFree(parts[0], sep);
    } else {
      SplitJoin(parts[1..], sep);
      SplitAfter(parts[0], sep, Join(parts[1..], sep));
      assert parts == [parts[0]] + parts[1..];
    }
  }

  /** A character put in front of a string free of `sep` keeps it free,
      unless `sep` now starts the string. */
  lemma ConsFree(c: char, u: string, sep: string)
    requires sep != [] && Free(u, sep) && !OccursAt([c] + u, sep, 0)
    ensures Free([c] + u, sep)
  {
    var h := [c] + u;
    forall i | 0 <= i <= |h| ensures !OccursAt(h, sep, i) {
      if 0 < i && i + |sep| <= |h| {
        assert h[i..i + |sep|] == u[i - 1..i - 1 + |sep|];
        assert !OccursAt(u, sep, i - 1);
      }
    }
  }

  /** No piece of a split contains the separator. */
  lemma {:induction false} SplitPiecesFree(s: string, sep: string)
    requires sep != []
    ensures forall k :: 0 <= k < |Split(s, sep)| ==> Free(Split(s, sep)[k], sep)
    decreases |s|
  {
    var r := Split(s, sep);
    if |s| < |sep| {
      forall i | 0 <= i <= |s| ensures !OccursAt(s, sep, i) { }
    } else if s[..|sep|] == sep {
      SplitPiecesFree(s[|sep|..], sep);
      assert forall i :: !OccursAt([], sep, i);
    } else {
      var t := Split(s[1..], sep);
      SplitPiecesFree(s[1..], sep);
      JoinSplit(s[1..], sep);
      JoinHead(t, sep);
      var h := [s[0]] + t[0];
      assert h == s[..|h|];
      if |sep| <= |h| {
        assert h[..|sep|] == s[..|sep|];
      }
      ConsFree(s[0], t[0], sep);
      assert r == [h] + t[1..];
    }
  }

  /** `sep` occurs nowhere in a part of a string in which it occurs nowhere. */
  lemma FreeSlice(s: string, sep: string, i: int, j: int)
    requires 0 <= i <= j <= |s| && Free(s, sep)
    ensures Free(s[i..j], sep)
  {
    forall k | 0 <= k <= j - i ensures !OccursAt(s[i..j], sep, k) {
      if k + |sep| <= j - i {
        var a, b := s[i..j][k..k + |sep|], s[i + k..i + k + |sep|];
        assert |a| == |b| && forall m :: 0 <= m < |a| ==> a[m] == b[m];
        assert !OccursAt(s, sep, i + k);
      }
    }
  }

  lemma StripFree(s: string, sep: string)
    requires Free(s, sep)
    ensures Free(Strip(s), sep)
  {
    var i := StripSlice(s);
    FreeSlice(s, sep, i, i + |Strip(s)|);
  }

  /** For a one-character separator `c`: the pieces are one more than the
      occurrences of `c`, and no piece contains `c`. */
  lemma {:induction false} SplitChar(s: string, c: char)
    ensures |Split(s, [c])| == multiset(s)[c] + 1
    ensures forall k :: 0 <= k < |Split(s, [c])| ==> c !in Split(s, [c])[k]
    decreases |s|
  {
    if |s| >= 1 {
      assert s == [s[0]] + s[1..];
      SplitChar(s[1..], c);
      var t := Split(s[1..], [c]);
      if s[..1] == [c] {
        assert s[1..] == s[|[c]|..];
      } else {
        assert s[0] != c;
        assert forall k :: 1 <= k < |Split(s, [c])| ==> Split(s, [c])[k] == t[k];
      }
    }
  }

  /** For a one-character separator, `EndsBefore` and `Free` both mean that
      the character does not occur. */
  lemma CharFree(p: string, c: char)
    requires c !in p
    ensures EndsBefore(p, [c]) && Free(p, [c])
  {
    forall i | 0 <= i < |p| ensures !OccursAt(p + [c], [c], i) {
      assert (p + [c])[i..i + 1] == [p[i]];
    }
    forall i | 0 <= i <= |p| ensures !OccursAt(p, [c], i) {
      if i + 1 <= |p| {
        assert p[i..i + 1] == [p[i]];
      }
    }
  }

  /** White space in front of a string does not survive `strip()`. */
  lemma StripLeadingSpace(c: char, s: string)
    requires IsSpace(c)
    ensures Strip([c] + s) == Strip(s)
  {
    assert ([c] + s)[1..] == s;
  }

  /** A stripped, non-empty string followed by one white-space character
      strips back to itself. */
  lemma StripTrailingSpace(s: string, c: char)
    requires s != [] && Strip(s) == s && IsSpace(c)
    ensures Strip(s + [c]) == s
  {
    StripFixed(s);
    StripSpec(s);
    assert TrimStart(s + [c]) == s + [c];
    assert (s + [c])[..|s|] == s;
    assert TrimEnd(s) == s;
  }

  /** Splitting a string that starts with a character the separator does not
      start with only extends the first piece. */
  lemma SplitLeading(c: char, s: string, sep: string)
    requires sep != [] && c != sep[0]
    ensures Split([c] + s, sep) == [[c] + Split(s, sep)[0]] + Split(s, sep)[1..]
  {
    var t := [c] + s;
    assert t[1..] == s;
    if |t| >= |sep| {
      assert t[..|sep|][0] == c;
    }
  }
}
