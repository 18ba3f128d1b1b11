/**
 Python's `urllib.parse.urlparse` (the 3.12 library): the split of a URL
 into scheme, authority (`netloc`), path, parameters, query and fragment of
 section 3 of RFC 3986, with Python's own clean-up of the input.
 */
module Url {
  import opened Wrappers
  import opened Text
  import opened Paths

  /** Index of the first character of `s` in `stops`, `|s|` when there is none. */
  function FirstOf(s: string, stops: set<char>): (i: nat)
    ensures i <= |s|
    ensures forall k :: 0 <= k < i ==> s[k] !in stops
    ensures i < |s| ==> s[i] in stops
    decreases |s|
  {
    if s == [] || s[0] in stops then 0 else 1 + FirstOf(s[1..], stops)
  }

  /** `FirstOf` is pinned down by the first character in `stops`. */
  lemma {:induction false} FirstOfIs(s: string, stops: set<char>, i: nat)
    requires i <= |s|
    requires forall k :: 0 <= k < i ==> s[k] !in stops
    requires i < |s| ==> s[i] in stops
    ensures FirstOf(s, stops) == i
  {
  }

  /** Characters `lstrip` drops first: C0 controls and the space. */
  predicate IsC0OrSpace(c: char) {
    c <= ' '
  }

  /** Characters removed anywhere in the URL: tab, carriage return, line feed. */
  predicate IsUnsafe(c: char) {
    c == '\t' || c == '\r' || c == '\n'
  }

  /** `url.replace(b, "")` for every unsafe `b`. */
  function RemoveUnsafe(s: string): (r: string)
    ensures forall k :: 0 <= k < |r| ==> !IsUnsafe(r[k])
    ensures |r| <= |s|
    decreases |s|
  {
    if s == [] then []
    else if IsUnsafe(s[0]) then RemoveUnsafe(s[1..])
    else [s[0]] + RemoveUnsafe(s[1..])
  }

  /** A URL with no unsafe character is left as it is. */
  lemma {:induction false} RemoveUnsafeKeepsSafe(s: string)
    requires forall k :: 0 <= k < |s| ==> !IsUnsafe(s[k])
    ensures RemoveUnsafe(s) == s
    decreases |s|
  {
    if s != [] {
      RemoveUnsafeKeepsSafe(s[1..]);
    }
  }

  /** The clean-up `urlsplit` applies before splitting. */
  function Clean(url: string): string {
    RemoveUnsafe(url[LeadingDropped(url, IsC0OrSpace)..])
  }

  /** A URL that starts with a visible character and has no tab or line break is not changed. */
  lemma {:induction false} CleanKeepsPlain(url: string)
    requires url != [] && !IsC0OrSpace(url[0])
    requires forall k :: 0 <= k < |url| ==> !IsUnsafe(url[k])
    ensures Clean(url) == url
  {
    assert LeadingDropped(url, IsC0OrSpace) == 0;
    RemoveUnsafeKeepsSafe(url);
  }

  predicate AsciiLetter(c: char) {
    'a' <= c <= 'z' || 'A' <= c <= 'Z'
  }

  predicate SchemeChar(c: char) {
    AsciiLetter(c) || '0' <= c <= '9' || c == '+' || c == '-' || c == '.'
  }

  /** Where the scheme's `:` is, when the text before the first `:` is a scheme. */
  function SchemeColon(url: string): (r: Option<nat>)
    ensures r.Some? ==> 0 < r.value < |url| && url[r.value] == ':' && AsciiLetter(url[0])
    ensures r.Some? ==> forall k :: 0 <= k < r.value ==> SchemeChar(url[k])
  {
    var i := FirstOf(url, {':'});
    if 0 < i < |url| && AsciiLetter(url[0]) && forall k :: 0 <= k < i ==> SchemeChar(url[k]) then Some(i) else None
  }

  /** The schemes whose last path segment may carry `;` parameters. */
  const UsesParams: set<string> := {"", "ftp", "hdl", "prospero", "http", "imap", "https", "shttp", "rtsp", "rtsps", "rtspu", "sip", "sips", "mms", "sftp", "tel"}

  /** `_splitparams`: the parameters start at the first `;` of the last segment. */
  function ParamsAt(path: string): nat {
    var start := AfterLast(path, '/');
    start + FirstOf(path[start..], {';'})
  }

  datatype Parsed = Parsed(scheme: string, netloc: string, path: string, params: string, query: string, fragment: string)

  /** The scheme, lower-cased, and what follows its `:`; no scheme leaves the URL whole. */
  function SplitScheme(u: string): (string, string) {
    match SchemeColon(u)
    case Some(i) => (Lower(u[..i]), u[i + 1..])
    case None => ("", u)
  }

  /** `_splitnetloc`: after `//`, the authority runs to the first `/`, `?` or `#`. */
  function SplitNetloc(rest: string): (string, string) {
    if StartsWith(rest, "//") then
      var j := 2 + FirstOf(rest[2..], {'/', '?', '#'});
      (rest[2..j], rest[j..])
    else ("", rest)
  }

  /** `s.split(c, 1)` when `c` occurs, `(s, "")` otherwise. */
  function SplitOnce(s: string, c: char): (string, string) {
    var i := FirstOf(s, {c});
    (s[..i], if i < |s| then s[i + 1..] else "")
  }

  /** `_splitparams` when the scheme uses parameters and the path has a `;`. */
  function SplitParams(scheme: string, path: string): (string, string) {
    if scheme in UsesParams && ';' in path then
      var p := ParamsAt(path);
      (path[..p], if p < |path| then path[p + 1..] else "")
    else (path, "")
  }

  /** `urlparse(url)`. */
  function UrlParse(url: string): Parsed {
    var (scheme, rest) := SplitScheme(Clean(url));
    var (netloc, tail) := SplitNetloc(rest);
    var (beforeFragment, fragment) := SplitOnce(tail, '#');
    var (beforeQuery, query) := SplitOnce(beforeFragment, '?');
    var (path, params) := SplitParams(scheme, beforeQuery);
    Parsed(scheme, netloc, path, params, query, fragment)
  }

  /** A string without `c` is not split. */
  lemma {:induction false} SplitOnceAbsent(s: string, c: char)
    requires c !in s
    ensures SplitOnce(s, c) == (s, "")
  {
    FirstOfIs(s, {c}, |s|);
    assert s[..|s|] == s;
  }

  /** Characters that end a path or split one up in `urlparse`. */
  predicate PathDelimiter(c: char) {
    c == '/' || c == '?' || c == '#' || c == ';' || IsUnsafe(c)
  }

  /** A segment `urlparse` carries through unchanged. */
  predicate PlainSegment(s: string) {
    forall k :: 0 <= k < |s| ==> !PathDelimiter(s[k])
  }

  /** `https:` is read as the scheme whatever follows it. */
  lemma {:induction false} SchemeOfHttps(rest: string)
    ensures SplitScheme("https:" + rest) == ("https", rest)
  {
    var url := "https:" + rest;
    FirstOfIs(url, {':'}, 5);
    assert url[..5] == "https";
    assert forall k :: 0 <= k < 5 ==> SchemeChar(url[k]);
    assert SchemeColon(url) == Some(5);
    var lower := Lower("https");
    assert lower[0] == 'h' && lower[1] == 't' && lower[2] == 't' && lower[3] == 'p' && lower[4] == 's';
    assert lower == "https";
    assert url[6..] == rest;
  }

  /** `https://<host><path>`. */
  function HttpsUrl(host: string, path: string): (u: string)
    ensures |u| >= 8 && u[0] == 'h'
  {
    "https://" + host + path
  }

  /** The clean-up leaves an `https` URL without tabs or line breaks alone. */
  lemma {:induction false} HttpsUrlIsClean(host: string, path: string)
    requires forall k :: 0 <= k < |host| ==> !IsUnsafe(host[k])
    requires forall k :: 0 <= k < |path| ==> !IsUnsafe(path[k])
    ensures Clean(HttpsUrl(host, path)) == HttpsUrl(host, path)
  {
    var url := HttpsUrl(host, path);
    assert url == "https://" + host + path;
    forall k | 0 <= k < |url| ensures !IsUnsafe(url[k]) {
      if k >= 8 + |host| {
        assert url[k] == path[k - 8 - |host|];
      } else if k >= 8 {
        assert url[k] == host[k - 8];
      }
    }
    CleanKeepsPlain(url);
  }

  /** After `//`, a host without `/`, `?` or `#` is the authority and the path follows. */
  lemma {:induction false} NetlocIsHost(host: string, path: string)
    requires PlainSegment(host)
    requires path == [] || path[0] == '/'
    ensures SplitNetloc("//" + host + path) == (host, path)
  {
    var rest := "//" + host + path;
    assert rest[2..] == host + path;
    assert forall k :: 0 <= k < |host| ==> (host + path)[k] == host[k];
    FirstOfIs(host + path, {'/', '?', '#'}, |host|);
    assert rest[2..2 + |host|] == host;
    assert rest[2 + |host|..] == path;
  }

  /**
   An `https` URL whose host and path segments contain no delimiter splits
   into exactly that host and path.
   */
  lemma {:induction false} ParseHttps(host: string, path: string)
    requires host != [] && PlainSegment(host)
    requires forall k :: 0 <= k < |path| ==> path[k] != '?' && path[k] != '#' && path[k] != ';' && !IsUnsafe(path[k])
    requires path == [] || path[0] == '/'
    ensures UrlParse(HttpsUrl(host, path)) == Parsed("https", host, path, "", "", "")
  {
    var url := HttpsUrl(host, path);
    HttpsUrlIsClean(host, path);
    var rest := "//" + host + path;
    assert url == "https:" + rest;
    SchemeOfHttps(rest);
    NetlocIsHost(host, path);
    SplitOnceAbsent(path, '#');
    SplitOnceAbsent(path, '?');
    assert ';' !in path;
  }
}
