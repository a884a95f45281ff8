/** The part of `urllib.parse.urlparse` the crawler reads: the network location and the path. */
module Urls {

  datatype UrlParts = UrlParts(netloc: string, path: string)

  predicate IsSchemeChar(c: char) {
    ('a' <= c <= 'z') || ('A' <= c <= 'Z') || ('0' <= c <= '9') || c == '+' || c == '-' || c == '.'
  }

  predicate IsAsciiLetter(c: char) {
    ('a' <= c <= 'z') || ('A' <= c <= 'Z')
  }

  /** Every character of `s` may appear in a scheme. */
  predicate SchemeChars(s: string) {
    s == [] || (IsSchemeChar(s[0]) && SchemeChars(s[1..]))
  }

  lemma {:induction false} SchemeCharsAll(s: string)
    requires SchemeChars(s)
    ensures forall k :: 0 <= k < |s| ==> IsSchemeChar(s[k])
  {
    if s != [] {
      SchemeCharsAll(s[1..]);
      assert forall k :: 1 <= k < |s| ==> s[k] == s[1..][k - 1];
    }
  }

  /** Position of the first character of `s` in `cs`, or `|s|` when there is none. */
  function IndexOfAny(s: string, cs: set<char>): (r: nat)
    ensures r <= |s|
    ensures r < |s| ==> s[r] in cs
    ensures forall j :: 0 <= j < r ==> s[j] !in cs
  {
    if s == [] then 0 else if s[0] in cs then 0 else 1 + IndexOfAny(s[1..], cs)
  }

  /** What follows the scheme: the scheme is the text before the first ':' when it is a letter followed by scheme characters. */
  function AfterScheme(url: string): string {
    var i := IndexOfAny(url, {':'});
    if 0 < i < |url| && IsAsciiLetter(url[0]) && SchemeChars(url[..i])
    then url[i + 1..]
    else url
  }

  /** The path ends at the first query or fragment delimiter. */
  function PathPart(s: string): string {
    s[..IndexOfAny(s, {'?', '#'})]
  }

  /** After a leading "//", the netloc runs to the first '/', '?' or '#'. */
  function SplitNetloc(tail: string): (string, string) {
    var d := IndexOfAny(tail, {'/', '?', '#'});
    (tail[..d], tail[d..])
  }

  /** `urlsplit(url)`'s netloc and path. */
  function SplitUrl(url: string): UrlParts {
    var rest := AfterScheme(url);
    if |rest| >= 2 && rest[..2] == "//" then
      var (netloc, after) := SplitNetloc(rest[2..]);
      UrlParts(netloc, PathPart(after))
    else
      UrlParts("", PathPart(rest))
  }

  /** `urlsplit` raises `ValueError("Invalid IPv6 URL")` when only one of '[' and ']' is in the netloc. */
  predicate BracketsBalanced(netloc: string) {
    ('[' in netloc) == (']' in netloc)
  }

  function Netloc(url: string): string {
    SplitUrl(url).netloc
  }

  lemma IndexOfAnyAt(s: string, t: string, cs: set<char>)
    requires forall j :: 0 <= j < |s| ==> s[j] !in cs
    requires t == [] || t[0] in cs
    ensures IndexOfAny(s + t, cs) == |s|
  {
    var r := IndexOfAny(s + t, cs);
    assert forall j :: 0 <= j < |s| ==> (s + t)[j] == s[j];
    if t != [] {
      assert (s + t)[|s|] == t[0];
    }
  }

  lemma AfterSchemeOf(scheme: string, rest: string)
    requires |scheme| > 0 && IsAsciiLetter(scheme[0])
    requires SchemeChars(scheme)
    ensures AfterScheme(scheme + ":" + rest) == rest
  {
    var url := scheme + ":" + rest;
    assert url == scheme + (":" + rest);
    SchemeCharsAll(scheme);
    IndexOfAnyAt(scheme, ":" + rest, {':'});
    assert url[..|scheme|] == scheme;
    assert url[|scheme| + 1..] == rest;
  }

  lemma PathPartOf(path: string, suffix: string)
    requires forall k :: 0 <= k < |path| ==> path[k] !in {'?', '#'}
    requires suffix == [] || suffix[0] in {'?', '#'}
    ensures PathPart(path + suffix) == path
  {
    IndexOfAnyAt(path, suffix, {'?', '#'});
    assert (path + suffix)[..|path|] == path;
  }

  lemma SplitNetlocOf(netloc: string, after: string)
    requires forall k :: 0 <= k < |netloc| ==> netloc[k] !in {'/', '?', '#'}
    requires after == [] || after[0] in {'/', '?', '#'}
    ensures SplitNetloc(netloc + after) == (netloc, after)
  {
    IndexOfAnyAt(netloc, after, {'/', '?', '#'});
    assert (netloc + after)[..|netloc|] == netloc;
    assert (netloc + after)[|netloc|..] == after;
  }

  lemma SplitUrlOfRest(url: string, netloc: string, after: string)
    requires AfterScheme(url) == "//" + (netloc + after)
    requires forall k :: 0 <= k < |netloc| ==> netloc[k] !in {'/', '?', '#'}
    requires after == [] || after[0] in {'/', '?', '#'}
    ensures SplitUrl(url) == UrlParts(netloc, PathPart(after))
  {
    var rest := "//" + (netloc + after);
    assert rest[..2] == "//" && rest[2..] == netloc + after;
    SplitNetlocOf(netloc, after);
  }

  /**
   * A URL written as scheme "://" netloc path, followed by an optional query or fragment,
   * splits back into that netloc and that path.
   */
  lemma SplitUrlOf(scheme: string, netloc: string, path: string, suffix: string)
    requires |scheme| > 0 && IsAsciiLetter(scheme[0]) && SchemeChars(scheme)
    requires forall k :: 0 <= k < |netloc| ==> netloc[k] !in {'/', '?', '#'}
    requires path == [] || path[0] == '/'
    requires forall k :: 0 <= k < |path| ==> path[k] !in {'?', '#'}
    requires suffix == [] || suffix[0] in {'?', '#'}
    ensures SplitUrl(scheme + "://" + netloc + path + suffix) == UrlParts(netloc, path)
  {
    var after := path + suffix;
    var rest := "//" + (netloc + after);
    var url := scheme + "://" + netloc + path + suffix;
    UrlShape(scheme, netloc, path, suffix);
    AfterSchemeOf(scheme, rest);
    SplitUrlOfRest(url, netloc, after);
    PathPartOf(path, suffix);
  }

  lemma UrlShape(scheme: string, netloc: string, path: string, suffix: string)
    ensures scheme + "://" + netloc + path + suffix == scheme + ":" + ("//" + (netloc + (path + suffix)))
  {
    assert "://" == ":" + "//";
  }
}
