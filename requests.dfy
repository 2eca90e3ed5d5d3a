/**
 * The string logic of request.c: how a URI becomes a file name and CGI
 * arguments, how a file name gets its MIME type, which URIs count as
 * static, the VIP test on a request line, and the choice between static
 * and dynamic serving in `requestHandle`. C strings are `string`s here
 * (a C string holds no NUL, and its length is `strlen`).
 */
module Requests {
  import opened Wrappers

  /** `pat` occurs in `s` starting at index `i`. */
  predicate OccursAt(s: string, pat: string, i: int) {
    0 <= i && i + |pat| <= |s| && s[i..i + |pat|] == pat
  }

  /** The plain meaning of "`s` contains `pat`". */
  ghost predicate HasSubstring(s: string, pat: string) {
    exists i :: OccursAt(s, pat, i)
  }

  /** An occurrence at `i > 0` in `s` is one at `i - 1` in the tail of `s`. */
  lemma OccursInTail(s: string, pat: string)
    requires |s| > 0
    ensures forall i :: 1 <= i ==> (OccursAt(s, pat, i) <==> OccursAt(s[1..], pat, i - 1))
  {
    forall i | 1 <= i
      ensures OccursAt(s, pat, i) <==> OccursAt(s[1..], pat, i - 1)
    {
      if i + |pat| <= |s| {
        var here, there := s[i..i + |pat|], s[1..][i - 1..i - 1 + |pat|];
        forall j | 0 <= j < |pat|
          ensures here[j] == there[j]
        {
        }
        assert here == there;
      }
    }
  }

  /** `strstr`: the index of the first occurrence of `pat` in `s`, or `None` (the NULL result). */
  function Find(s: string, pat: string): (r: Option<nat>)
    ensures r.Some? ==> OccursAt(s, pat, r.value)
    ensures r.Some? ==> forall i :: 0 <= i < r.value ==> !OccursAt(s, pat, i)
    ensures r.None? ==> forall i :: !OccursAt(s, pat, i)
    decreases |s|
  {
    if |s| < |pat| then None
    else if s[..|pat|] == pat then Some(0)
    else
      OccursInTail(s, pat);
      match Find(s[1..], pat)
      case None => None
      case Some(k) => Some(k + 1)
  }

  /** `strstr(s, pat) != NULL`. */
  function Contains(s: string, pat: string): (b: bool)
    ensures b <==> HasSubstring(s, pat)
  {
    Find(s, pat).Some?
  }

  /** `index(s, c)`: the first occurrence of the character `c`. */
  lemma FindChar(s: string, c: char)
    ensures Find(s, [c]).None? <==> c !in s
    ensures Find(s, [c]).Some? ==> var k := Find(s, [c]).value;
      k < |s| && s[k] == c && c !in s[..k]
  {
    forall i | 0 <= i < |s|
      ensures OccursAt(s, [c], i) <==> s[i] == c
    {
      assert s[i..i + 1] == [s[i]];
    }
  }

  // ---------------------------------------------------------------------
  // requestParseURI
  // ---------------------------------------------------------------------

  /** Every served file lives under this directory. */
  const PublicDir: string := "./public/"

  /** The return value of `requestParseURI`: 1 for static, 0 for dynamic. */
  datatype Kind = Static | Dynamic

  /**
   * What `requestParseURI` leaves behind: the `filename` and `cgiargs`
   * buffers, the `uri` buffer (cut at the '?' of a CGI request) and the
   * return value.
   */
  datatype ParsedUri = ParsedUri(filename: string, cgiargs: string, uri: string, kind: Kind)

  /** `s` begins with `prefix`. */
  predicate StartsWith(s: string, prefix: string) {
    |prefix| <= |s| && s[..|prefix|] == prefix
  }

  /**
   * `requestParseURI`. `cgiargs` is what the caller's buffer held before:
   * a URI with ".." leaves it as it was. The branch for a URI without "cgi"
   * reads its last character, so the URI must not be empty.
   */
  function ParseUri(uri: string, cgiargs: string): (r: ParsedUri)
    requires |uri| > 0
    ensures StartsWith(r.filename, PublicDir)
    ensures r.kind == Dynamic <==> !HasSubstring(uri, "..") && HasSubstring(uri, "cgi")
  {
    if Contains(uri, "..") then
      ParsedUri(PublicDir + "home.html", cgiargs, uri, Static)
    else if !Contains(uri, "cgi") then
      var name := PublicDir + uri;
      ParsedUri(if uri[|uri| - 1] == '/' then name + "home.html" else name, "", uri, Static)
    else
      match Find(uri, "?")
      case Some(k) => ParsedUri(PublicDir + uri[..k], uri[k + 1..], uri[..k], Dynamic)
      case None => ParsedUri(PublicDir + uri, "", uri, Dynamic)
  }

  /** A URI with ".." is sent to the home page; `cgiargs` and the URI are left untouched. */
  lemma ParseUriDotDot(uri: string, cgiargs: string)
    requires |uri| > 0 && HasSubstring(uri, "..")
    ensures ParseUri(uri, cgiargs) == ParsedUri("./public/home.html", cgiargs, uri, Static)
  {
  }

  /**
   * A URI with neither ".." nor "cgi" names a file under the public
   * directory, with "home.html" added to a directory name; no CGI arguments.
   */
  lemma ParseUriPlain(uri: string, cgiargs: string)
    requires |uri| > 0 && !HasSubstring(uri, "..") && !HasSubstring(uri, "cgi")
    ensures var r := ParseUri(uri, cgiargs);
      r.kind == Static && r.cgiargs == "" && r.uri == uri &&
      r.filename == PublicDir + uri + (if uri[|uri| - 1] == '/' then "home.html" else "")
  {
  }

  /**
   * A CGI URI (with "cgi", without ".."): the URI is cut at its first '?';
   * what precedes it names the program under the public directory and what
   * follows it is the argument string, so the two put back together with
   * the '?' give the original URI. Without a '?' the arguments are empty.
   */
  lemma ParseUriCgi(uri: string, cgiargs: string)
    requires |uri| > 0 && !HasSubstring(uri, "..") && HasSubstring(uri, "cgi")
    ensures var r := ParseUri(uri, cgiargs);
      r.kind == Dynamic && r.filename == PublicDir + r.uri && '?' !in r.uri &&
      if '?' in uri then r.uri + "?" + r.cgiargs == uri
      else r.uri == uri && r.cgiargs == ""
  {
    FindChar(uri, '?');
    var r := ParseUri(uri, cgiargs);
    if '?' in uri {
      var k := Find(uri, "?").value;
      assert uri[..k] + "?" + uri[k + 1..] == uri;
    }
  }

  // ---------------------------------------------------------------------
  // requestGetFiletype, isStaticRequest, getRequestType
  // ---------------------------------------------------------------------

  /** `requestGetFiletype`: the first of ".html", ".gif", ".jpg" the name contains decides. */
  function Filetype(filename: string): (t: string)
    ensures t == "text/html" <==> HasSubstring(filename, ".html")
    ensures t == "image/gif" <==> !HasSubstring(filename, ".html") && HasSubstring(filename, ".gif")
    ensures t == "image/jpeg" <==>
      !HasSubstring(filename, ".html") && !HasSubstring(filename, ".gif") && HasSubstring(filename, ".jpg")
    ensures t == "text/plain" <==>
      !HasSubstring(filename, ".html") && !HasSubstring(filename, ".gif") && !HasSubstring(filename, ".jpg")
  {
    if Contains(filename, ".html") then "text/html"
    else if Contains(filename, ".gif") then "image/gif"
    else if Contains(filename, ".jpg") then "image/jpeg"
    else "text/plain"
  }

  /** First match wins: a name with both ".gif" and ".html" is served as HTML. */
  lemma FiletypeHtmlBeforeGif()
    ensures Filetype("./public/a.gif.html") == "text/html"
  {
    assert OccursAt("./public/a.gif.html", ".html", 14);
  }

  /** The extensions `isStaticRequest` looks for. */
  const StaticExtensions: seq<string> := [".html", ".jpg", ".png", ".gif", ".css", ".js"]

  /** `isStaticRequest`: the URI mentions one of the static extensions, anywhere. */
  function IsStaticRequest(uri: string): (b: bool)
    ensures b <==> exists e :: e in StaticExtensions && HasSubstring(uri, e)
  {
    Contains(uri, ".html") || Contains(uri, ".jpg") || Contains(uri, ".png") ||
    Contains(uri, ".gif") || Contains(uri, ".css") || Contains(uri, ".js")
  }

  /** The test of `getRequestType` on the first request line: "REAL" marks a VIP request. */
  function IsVipLine(line: string): (vip: bool)
    ensures vip <==> HasSubstring(line, "REAL")
  {
    Contains(line, "REAL")
  }

  // ---------------------------------------------------------------------
  // The static/dynamic choice of requestHandle
  // ---------------------------------------------------------------------

  /** What `requestHandle` does with a GET request once its headers are read. */
  datatype Action =
    | NotFound(filename: string)
    | ServeStatic(filename: string)
    | ServeDynamic(filename: string, cgiargs: string)

  /**
   * `requestHandle` from the parse on: `isStaticRequest` looks at the URI
   * first, then the URI is parsed; a file missing from `files` (the `stat`
   * that fails) is a 404, otherwise the extension test, not the parser's
   * return value, picks static or dynamic serving. `cgiargs` is the
   * uninitialised buffer the parser may leave as it is.
   */
  function Dispatch(uri: string, cgiargs: string, files: set<string>): (a: Action)
    requires |uri| > 0
    ensures a.filename == ParseUri(uri, cgiargs).filename
    ensures a.NotFound? <==> a.filename !in files
    ensures a.ServeStatic? <==> a.filename in files && exists e :: e in StaticExtensions && HasSubstring(uri, e)
    ensures a.ServeDynamic? ==> a.cgiargs == ParseUri(uri, cgiargs).cgiargs
  {
    var isStatic := IsStaticRequest(uri);
    var parsed := ParseUri(uri, cgiargs);
    if parsed.filename !in files then NotFound(parsed.filename)
    else if isStatic then ServeStatic(parsed.filename)
    else ServeDynamic(parsed.filename, parsed.cgiargs)
  }

  /**
   * The parser calls a ".." URI static, but a ".." URI without a static
   * extension is run as a CGI program: the home page is executed, with the
   * caller's untouched argument buffer.
   */
  lemma DotDotServedDynamic(uri: string, cgiargs: string, files: set<string>)
    requires |uri| > 0 && HasSubstring(uri, "..")
    requires forall e :: e in StaticExtensions ==> !HasSubstring(uri, e)
    requires "./public/home.html" in files
    ensures ParseUri(uri, cgiargs).kind == Static
    ensures Dispatch(uri, cgiargs, files) == ServeDynamic("./public/home.html", cgiargs)
  {
    assert PublicDir + "home.html" == "./public/home.html";
    assert !IsStaticRequest(uri);
  }
}
