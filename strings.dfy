/**
 * The pieces of Python's string and path library that crawl.py relies on, as pure
 * functions on `string` (= `seq<char>`): `str.strip()`, `str.split('/')`, `'/'.join(...)`,
 * and `os.path.splitext` (POSIX flavour).
 */
module Strings {

  /** A path as the list of its components; `os.path.join(d, x)` is `d + [x]`. */
  type Path = seq<string>

  /** The characters for which Python's `str.isspace()` holds; `str.strip()` removes these. */
  predicate IsSpace(c: char)
  {
    ('\t' <= c <= '\r') || ('\U{1C}' <= c <= '\U{1F}') || c == ' ' ||
    c == '\U{85}' || c == '\U{A0}' || c == '\U{1680}' || ('\U{2000}' <= c <= '\U{200A}') ||
    c == '\U{2028}' || c == '\U{2029}' || c == '\U{202F}' || c == '\U{205F}' || c == '\U{3000}'
  }

  predicate AllSpace(s: string)
  {
    forall k :: 0 <= k < |s| ==> IsSpace(s[k])
  }

  /** Drops the leading white space. */
  function TrimLeft(s: string): string
  {
    if s != [] && IsSpace(s[0]) then TrimLeft(s[1..]) else s
  }

  /** Drops the trailing white space. */
  function TrimRight(s: string): string
  {
    if s != [] && IsSpace(s[|s| - 1]) then TrimRight(s[..|s| - 1]) else s
  }

  /** Python's `s.strip()`: the text between the leading and the trailing white space. */
  function Strip(s: string): string
  {
    TrimRight(TrimLeft(s))
  }

  /** `TrimLeft` removes exactly the leading run of white space. */
  lemma {:induction false} TrimLeftSpec(s: string)
    ensures var r := TrimLeft(s);
      |r| <= |s| && r == s[|s| - |r|..] && AllSpace(s[..|s| - |r|]) && (r == [] || !IsSpace(r[0]))
  {
    if s != [] && IsSpace(s[0]) {
      TrimLeftSpec(s[1..]);
      var r := TrimLeft(s);
      assert s[..|s| - |r|] == [s[0]] + s[1..][..|s| - 1 - |r|];
    }
  }

  /** `TrimRight` removes exactly the trailing run of white space. */
  lemma {:induction false} TrimRightSpec(s: string)
    ensures var r := TrimRight(s);
      |r| <= |s| && r == s[..|r|] && AllSpace(s[|r|..]) && (r == [] || !IsSpace(r[|r| - 1]))
  {
    if s != [] && IsSpace(s[|s| - 1]) {
      var t := s[..|s| - 1];
      TrimRightSpec(t);
      var r := TrimRight(s);
      assert s[|r|..] == t[|r|..] + [s[|s| - 1]];
    }
  }

  /**
   * `Strip(s)` is a slice of `s` with only white space around it in `s`, and it neither
   * starts nor ends with white space.
   */
  lemma StripSpec(s: string)
    ensures var r := Strip(s);
      (exists i, j :: 0 <= i <= j <= |s| && r == s[i..j] && AllSpace(s[..i]) && AllSpace(s[j..])) &&
      (r == [] || (!IsSpace(r[0]) && !IsSpace(r[|r| - 1])))
  {
    var l := TrimLeft(s);
    var r := TrimRight(l);
    TrimLeftSpec(s);
    TrimRightSpec(l);
    var i, j := |s| - |l|, |s| - |l| + |r|;
    assert r == s[i..j];
    assert s[j..] == l[|r|..];
  }

  /** Python's `s.split('/')`: the maximal '/'-free pieces, in order, at least one. */
  function Split(s: string): (parts: seq<string>)
    ensures |parts| >= 1
  {
    if s == [] then [[]]
    else
      var rest := Split(s[1..]);
      if s[0] == '/' then [[]] + rest
      else [[s[0]] + rest[0]] + rest[1..]
  }

  /** The pieces of a split contain no '/'. */
  lemma {:induction false} SplitNoSlash(s: string)
    ensures forall k :: 0 <= k < |Split(s)| ==> '/' !in Split(s)[k]
  {
    if s != [] {
      SplitNoSlash(s[1..]);
    }
  }

  /** Python's `'/'.join(parts)`. */
  function Join(parts: seq<string>): string
  {
    if parts == [] then []
    else if |parts| == 1 then parts[0]
    else parts[0] + "/" + Join(parts[1..])
  }

  /** Joining a piece in front of a non-empty list adds that piece and one '/'. */
  lemma JoinCons(x: string, rest: seq<string>)
    requires rest != []
    ensures Join([x] + rest) == x + "/" + Join(rest)
  {
    assert ([x] + rest)[1..] == rest;
  }

  /** Splitting at '/' and joining again with '/' gives back the original string. */
  lemma {:induction false} JoinSplit(s: string)
    ensures Join(Split(s)) == s
  {
    if s != [] {
      var rest := Split(s[1..]);
      JoinSplit(s[1..]);
      if s[0] == '/' {
        assert Split(s) == [[]] + rest;
        JoinCons([], rest);
        assert [] + "/" + s[1..] == s;
      } else {
        var head := [s[0]] + rest[0];
        if |rest| == 1 {
          assert Split(s) == [head];
          assert Join(rest) == rest[0];
        } else {
          assert Split(s) == [head] + rest[1..];
          assert rest == [rest[0]] + rest[1..];
          JoinCons(rest[0], rest[1..]);
          JoinCons(head, rest[1..]);
        }
        assert [s[0]] + s[1..] == s;
      }
    }
  }

  /** A string splits into more than one piece exactly when it contains a '/'. */
  lemma {:induction false} SplitSingle(s: string)
    ensures '/' !in s ==> Split(s) == [s]
    ensures '/' in s ==> |Split(s)| >= 2
  {
    if s != [] {
      SplitSingle(s[1..]);
      var rest := Split(s[1..]);
      if '/' !in s {
        assert '/' !in s[1..];
        assert [s[0]] + s[1..] == s;
      } else if s[0] != '/' {
        assert '/' in s[1..];
      }
    }
  }

  /** Appending one component to a non-empty list adds one '/' and that component. */
  lemma {:induction false} JoinSnoc(parts: seq<string>, x: string)
    requires |parts| >= 1
    ensures Join(parts + [x]) == Join(parts) + "/" + x
  {
    if |parts| > 1 {
      assert (parts + [x])[1..] == parts[1..] + [x];
      JoinSnoc(parts[1..], x);
    }
  }

  /** `s.split('/')[-1]`: the final '/'-separated piece. */
  function LastSegment(s: string): string
  {
    var parts := Split(s);
    parts[|parts| - 1]
  }

  /** The index of the last occurrence of `c` in `s`, or -1 (Python's `str.rfind`). */
  function LastIndexOf(s: string, c: char): (r: int)
    ensures -1 <= r < |s|
  {
    if s == [] then -1
    else if s[|s| - 1] == c then |s| - 1
    else LastIndexOf(s[..|s| - 1], c)
  }

  /** `LastIndexOf` finds the last occurrence, and -1 exactly when there is none. */
  lemma {:induction false} LastIndexOfSpec(s: string, c: char)
    ensures var r := LastIndexOf(s, c);
      (r >= 0 ==> s[r] == c) && (forall k :: r < k < |s| ==> s[k] != c)
  {
    if s != [] && s[|s| - 1] != c {
      var t := s[..|s| - 1];
      LastIndexOfSpec(t, c);
      assert forall k :: 0 <= k < |t| ==> t[k] == s[k];
    }
  }

  /**
   * `d` is where the extension of `p` starts: `p[d]` is the last '.', no '/' follows it, and
   * the final path segment has a character other than '.' before it.
   */
  ghost predicate ExtensionAt(p: string, d: int)
  {
    0 <= d < |p| && p[d] == '.' &&
    (forall k :: d < k < |p| ==> p[k] != '.' && p[k] != '/') &&
    exists j :: 0 <= j < d && p[j] != '.' && forall m :: j <= m < d ==> p[m] != '/'
  }

  /** The extension part of POSIX `os.path.splitext(p)`: "" or a '.' and what follows it. */
  function Extension(p: string): string
  {
    var sep := LastIndexOf(p, '/');
    var dot := LastIndexOf(p, '.');
    if dot > sep && exists j :: sep < j < dot && p[j] != '.' then p[dot..] else []
  }

  /**
   * The extension is non-empty exactly when there is an extension start, and then it is the
   * text from there on: a '.' followed by neither '.' nor '/'.
   */
  lemma ExtensionSpec(p: string)
    ensures var ext := Extension(p);
      (ext != [] <==> exists d :: ExtensionAt(p, d)) &&
      (forall d :: ExtensionAt(p, d) ==> ext == p[d..]) &&
      (ext == [] || (ext[0] == '.' && ext == p[|p| - |ext|..] && '/' !in ext))
  {
    var sep := LastIndexOf(p, '/');
    var dot := LastIndexOf(p, '.');
    LastIndexOfSpec(p, '/');
    LastIndexOfSpec(p, '.');
    if dot > sep && exists j :: sep < j < dot && p[j] != '.' {
      assert ExtensionAt(p, dot);
    }
    forall d | ExtensionAt(p, d) ensures d == dot && dot > sep && exists j :: sep < j < dot && p[j] != '.' {
      var j :| 0 <= j < d && p[j] != '.' && forall m :: j <= m < d ==> p[m] != '/';
      assert sep < j;
    }
  }

  /** `'/'.join(url.split('/')[:-1])`: everything before the last '/', or "" when there is none. */
  function UrlPrefix(url: string): string
  {
    var parts := Split(url);
    Join(parts[..|parts| - 1])
  }

  /** The URL prefix and the last segment put back together give the URL itself. */
  lemma PrefixRoundTrip(url: string)
    ensures '/' in url ==> UrlPrefix(url) + "/" + LastSegment(url) == url
    ensures '/' !in url ==> UrlPrefix(url) == [] && LastSegment(url) == url
  {
    var parts := Split(url);
    SplitSingle(url);
    if '/' in url {
      var init, last := parts[..|parts| - 1], parts[|parts| - 1];
      assert parts == init + [last];
      JoinSnoc(init, last);
      JoinSplit(url);
    } else {
      assert parts == [url];
    }
  }

  /** The last segment is the part of the string after its last '/', or all of it. */
  lemma LastSegmentIsTail(s: string)
    ensures var r := LastSegment(s);
      '/' !in r && |r| <= |s| && r == s[|s| - |r|..] && (|r| == |s| || s[|s| - |r| - 1] == '/')
  {
    PrefixRoundTrip(s);
    SplitNoSlash(s);
    if '/' in s {
      var r := LastSegment(s);
      assert s == UrlPrefix(s) + "/" + r;
      assert s[|s| - |r|..] == r;
    }
  }

  /** Stripping is idempotent. */
  lemma StripIdempotent(s: string)
    ensures Strip(Strip(s)) == Strip(s)
  {
    var r := Strip(s);
    StripSpec(s);
    assert TrimLeft(r) == r;
    assert TrimRight(r) == r;
  }

  /** A stripped text is empty exactly when the text is all white space. */
  lemma StripEmpty(s: string)
    ensures Strip(s) == [] <==> AllSpace(s)
  {
    var l := TrimLeft(s);
    TrimLeftSpec(s);
    TrimRightSpec(l);
    if Strip(s) == [] {
      assert l == [];
      assert s[..|s|] == s;
    }
  }
}
