/**
  The URL the adapter health check posts to: the configured base URL, the
  base path and the endpoint path, joined with exactly the slash handling
  of `joinUrl`. The check itself (the HTTP call) is not part of this model.
 */
module SqlAdapterHealthIndicator {
  import opened Wrappers
  import opened JavaText

  predicate NullOrBlank(s: Option<string>) {
    s.None? || IsBlank(s.value)
  }

  predicate EndsWithSlash(s: string) {
    |s| > 0 && s[|s| - 1] == '/'
  }

  predicate StartsWithSlash(s: string) {
    |s| > 0 && s[0] == '/'
  }

  /** joinUrl: a null or blank side gives way to the other; otherwise the
      two halves meet at one slash supplied by whichever side has it. */
  function JoinUrl(left: Option<string>, right: Option<string>): (url: string)
    ensures !NullOrBlank(left) ==> left.value <= url
  {
    if NullOrBlank(left) then
      if right.None? then "" else right.value
    else if NullOrBlank(right) then
      left.value
    else
      var l := left.value;
      var r := right.value;
      if EndsWithSlash(l) && StartsWithSlash(r) then l + r[1..]
      else if !EndsWithSlash(l) && !StartsWithSlash(r) then l + "/" + r
      else l + r
  }

  /** buildUrl */
  function BuildUrl(base: Option<string>, basePath: Option<string>, path: Option<string>): (url: string)
    ensures !NullOrBlank(base) ==> base.value <= url
  {
    var prefix := JoinUrl(base, basePath);
    if !NullOrBlank(base) then
      PrefixOfNonBlank(base.value, prefix);
      JoinUrl(Some(prefix), path)
    else
      JoinUrl(Some(prefix), path)
  }

  /** A string that starts with a non-blank string is not blank. */
  lemma PrefixOfNonBlank(a: string, b: string)
    requires a <= b && !IsBlank(a)
    ensures !IsBlank(b)
  {
    var i :| 0 <= i < |a| && !IsWhitespace(a[i]);
    assert b[i] == a[i];
  }

  /** The left part without one trailing slash, the right part without one leading slash. */
  function WithoutTrailingSlash(s: string): (r: string)
    ensures r + (if EndsWithSlash(s) then "/" else "") == s
  {
    if EndsWithSlash(s) then s[..|s| - 1] else s
  }

  function WithoutLeadingSlash(s: string): (r: string)
    ensures (if StartsWithSlash(s) then "/" else "") + r == s
  {
    if StartsWithSlash(s) then s[1..] else s
  }

  /** A null or blank left side yields the right side as it is, or "" for null. */
  lemma BlankLeftYieldsRight(left: Option<string>, right: Option<string>)
    requires NullOrBlank(left)
    ensures right.None? ==> JoinUrl(left, right) == ""
    ensures right.Some? ==> JoinUrl(left, right) == right.value
  {
  }

  /** A non-blank left side and a null or blank right side yield the left side unchanged. */
  lemma BlankRightYieldsLeft(left: Option<string>, right: Option<string>)
    requires !NullOrBlank(left) && NullOrBlank(right)
    ensures JoinUrl(left, right) == left.value
  {
  }

  /** With both sides non-blank the result starts with the left side, and it
      is the two sides with their seam slashes taken off and exactly one
      slash put back in between. */
  lemma JoinedAtOneSlash(left: string, right: string)
    requires !IsBlank(left) && !IsBlank(right)
    ensures var url := JoinUrl(Some(left), Some(right));
      && left <= url
      && url == WithoutTrailingSlash(left) + "/" + WithoutLeadingSlash(right)
  {
    var a := WithoutTrailingSlash(left);
    var b := WithoutLeadingSlash(right);
    var url := JoinUrl(Some(left), Some(right));
    if EndsWithSlash(left) && StartsWithSlash(right) {
      assert url == (a + "/") + b;
    } else if EndsWithSlash(left) {
      assert url == (a + "/") + b;
    } else if StartsWithSlash(right) {
      assert url == a + ("/" + b);
    }
    assert url[..|left|] == left;
  }

  /** The length of the joined URL: one less than both sides when both bring
      a slash, one more when neither does. */
  lemma JoinedLength(left: string, right: string)
    requires !IsBlank(left) && !IsBlank(right)
    ensures |JoinUrl(Some(left), Some(right))| ==
      |left| + |right| + (if EndsWithSlash(left) && StartsWithSlash(right) then -1
                          else if !EndsWithSlash(left) && !StartsWithSlash(right) then 1
                          else 0)
  {
  }

  /** A typical configuration: the base ends with a slash and both paths start
      with one; one slash stays between each part. */
  lemma HealthUrlExample()
    ensures BuildUrl(Some("http://adapter:8080/"), Some("/api"), Some("/health")) == "http://adapter:8080/api/health"
  {
    assert !IsWhitespace('h') && !IsWhitespace('/');
    assert "http://adapter:8080/"[0] == 'h';
    assert "/api"[0] == '/';
    assert "/health"[0] == '/';
    assert JoinUrl(Some("http://adapter:8080/"), Some("/api")) == "http://adapter:8080/api";
    assert "http://adapter:8080/api"[0] == 'h';
  }

  /** Neither side brings a slash: one is put in; a missing base path is skipped. */
  lemma HealthUrlWithoutSlashes()
    ensures BuildUrl(Some("http://adapter:8080"), None, Some("health")) == "http://adapter:8080/health"
  {
    assert !IsWhitespace('h');
    assert "http://adapter:8080"[0] == 'h';
    assert "health"[0] == 'h';
    assert JoinUrl(Some("http://adapter:8080"), None) == "http://adapter:8080";
  }

  /** With no base and no base path the endpoint path is the URL. */
  lemma HealthUrlWithoutBase()
    ensures BuildUrl(None, None, Some("/health")) == "/health"
  {
    assert JoinUrl(None, None) == "";
  }
}
