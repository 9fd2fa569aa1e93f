/**
 * The process-wide browser handle and the route filter that every new page
 * installs.
 */
module Browser {
  import opened Wrappers

  /** What chromium.launch settles to. */
  datatype Launch = Launched(id: nat) | LaunchFailed(reason: string)

  /** The module-level `browserPromise`, launched on first use and then shared. */
  class BrowserPool {
    var browserPromise: Option<Launch>
    /** How many times chromium.launch has been called. */
    ghost var launches: nat

    ghost predicate Valid()
      reads this
    {
      launches == if browserPromise.Some? then 1 else 0
    }

    constructor ()
      ensures Valid() && browserPromise == None
    {
      browserPromise := None;
      launches := 0;
    }

    /**
     * ensureBrowser: `launch` is what chromium.launch would settle to if it
     * were called now. Only the first call launches; every call returns the
     * memoised result, a failed launch included.
     */
    method EnsureBrowser(launch: Launch) returns (b: Launch)
      requires Valid()
      modifies this
      ensures Valid() && launches <= 1
      ensures browserPromise == Some(b)
      ensures old(browserPromise).Some? ==> b == old(browserPromise).value && launches == old(launches)
      ensures old(browserPromise).None? ==> b == launch && launches == 1
    {
      if browserPromise.None? {
        browserPromise := Some(launch);
        launches := launches + 1;
      }
      b := browserPromise.value;
    }
  }

  /** Two requests served by one process get the result of the first launch, whatever a second launch would give. */
  method SharedAcrossRequests(first: Launch, second: Launch) returns (b1: Launch, b2: Launch)
    ensures b1 == first && b2 == first
  {
    var pool := new BrowserPool();
    b1 := pool.EnsureBrowser(first);
    b2 := pool.EnsureBrowser(second);
  }

  // ---------------------------------------------------------------------
  // /\.(mp4|avi|m3u8|webm|mov|woff2?|ttf|otf)$/i
  // ---------------------------------------------------------------------

  const AbortedExtensions: seq<string> := ["mp4", "avi", "m3u8", "webm", "mov", "woff", "woff2", "ttf", "otf"]

  /** The case folding of a case-insensitive regular expression, on ASCII letters. */
  function LowerAscii(c: char): char {
    if 'A' <= c <= 'Z' then (c as int + 32) as char else c
  }

  function Lower(s: string): (r: string)
    ensures |r| == |s| && forall i :: 0 <= i < |s| ==> r[i] == LowerAscii(s[i])
  {
    seq(|s|, i requires 0 <= i < |s| => LowerAscii(s[i]))
  }

  predicate EndsWith(s: string, suffix: string) {
    |suffix| <= |s| && s[|s| - |suffix|..] == suffix
  }

  /** The route handler aborts a request whose URL ends, ignoring case, in one of the extensions. */
  predicate ShouldAbort(url: string) {
    exists e :: e in AbortedExtensions && EndsWith(Lower(url), "." + e)
  }

  /** The index of the last '.' in `s`. */
  function LastDot(s: string): (r: Option<nat>)
    ensures r.Some? ==> r.value < |s| && s[r.value] == '.' && forall j :: r.value < j < |s| ==> s[j] != '.'
    ensures r.None? ==> forall j :: 0 <= j < |s| ==> s[j] != '.'
  {
    if s == [] then None
    else if s[|s| - 1] == '.' then Some(|s| - 1)
    else LastDot(s[..|s| - 1])
  }

  /** What follows the last '.' of a URL, if it has one. */
  function Extension(url: string): Option<string> {
    match LastDot(url)
    case Some(i) => Some(url[i + 1..])
    case None => None
  }

  /** The last-dot index is determined by its defining facts. */
  lemma LastDotAt(s: string, i: nat)
    requires i < |s| && s[i] == '.'
    requires forall j :: i < j < |s| ==> s[j] != '.'
    ensures LastDot(s) == Some(i)
  {
  }

  lemma NoDotInExtensions()
    ensures forall e, k :: e in AbortedExtensions && 0 <= k < |e| ==> e[k] != '.'
  {
  }

  lemma LowerSuffix(s: string, k: nat)
    requires k <= |s|
    ensures Lower(s)[k..] == Lower(s[k..])
  {
  }

  lemma AbortHasExtension(url: string)
    requires ShouldAbort(url)
    ensures Extension(url).Some? && Lower(Extension(url).value) in AbortedExtensions
  {
    var low := Lower(url);
    var n := |url|;
    var e :| e in AbortedExtensions && EndsWith(low, "." + e);
    var d := n - |e| - 1;
    assert low[d..] == "." + e;
    assert low[d] == '.';
    assert url[d] == '.';
    NoDotInExtensions();
    forall j | d < j < n ensures url[j] != '.' {
      assert low[j] == low[d..][j - d] == e[j - d - 1];
    }
    LastDotAt(url, d);
    LowerSuffix(url, d + 1);
    assert low[d + 1..] == low[d..][1..] == e;
  }

  lemma ExtensionAborts(url: string)
    requires Extension(url).Some? && Lower(Extension(url).value) in AbortedExtensions
    ensures ShouldAbort(url)
  {
    var i := LastDot(url).value;
    var e := Lower(url[i + 1..]);
    var low := Lower(url);
    assert low[i] == '.';
    LowerSuffix(url, i + 1);
    assert low[i..] == "." + e by {
      assert low[i..] == [low[i]] + low[i + 1..];
    }
    assert |low| - |"." + e| == i;
    assert EndsWith(low, "." + e);
  }

  /** Equivalently: the URL has a '.', and what follows its last '.' is one of the extensions, ignoring case. */
  lemma AbortIffExtension(url: string)
    ensures ShouldAbort(url) <==> Extension(url).Some? && Lower(Extension(url).value) in AbortedExtensions
  {
    if ShouldAbort(url) {
      AbortHasExtension(url);
    }
    if Extension(url).Some? && Lower(Extension(url).value) in AbortedExtensions {
      ExtensionAborts(url);
    }
  }

  /** A font file is refused whatever the case of its extension. */
  lemma AbortsUpperCaseFont()
    ensures ShouldAbort("f.WOFF2")
  {
    LastDotAt("f.WOFF2", 1);
    assert Lower("WOFF2") == "woff2";
    ExtensionAborts("f.WOFF2");
  }

  /** The pattern is anchored at the very end of the URL: a query string lets a video through. */
  lemma QueryStringPasses()
    ensures !ShouldAbort("v.mp4?t=1")
  {
    LastDotAt("v.mp4?t=1", 1);
    assert Lower("mp4?t=1")[3] == '?';
    AbortIffExtension("v.mp4?t=1");
  }

  /** The extension must follow a dot. */
  lemma BareNamePasses()
    ensures !ShouldAbort("/mp4")
  {
    AbortIffExtension("/mp4");
  }
}
