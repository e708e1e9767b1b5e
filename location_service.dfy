/** The location service itself: the state it keeps (the service-worker
    update flag), what it hands to its collaborators (the URL stream, the
    in-app history, full page navigations, history-state replacements), and
    the decisions `go` and `handleAnchorClick` make. */
module Location {

  import opened Options
  import opened Urls
  import opened SearchParams

  /** What `go` does with a URL. */
  datatype Navigation =
    | Ignore              // falsy URL: nothing happens
    | External(url: string) // window.location.assign: a full page load
    | InApp(url: string)    // location.go plus an emission on the URL stream

  /** The decision `go` takes, given whether a service-worker update has
      been activated. `None` stands for `null` and `undefined`. */
  function GoTarget(url: Option<string>, activated: bool): Navigation {
    if url.None? || url.value == "" then Ignore
    else
      var stripped := StripSlashes(url.value);
      if StartsWith(stripped, "http") || activated then External(stripped)
      else InApp(stripped)
  }

  /** A full page navigation through `window.location`. */
  datatype PageLoad = Assign(url: string) | Replace(url: string)

  /** A call of `platformLocation.replaceState({}, title, url)`. */
  datatype ReplacedState = ReplacedState(title: string, url: string)

  /** The parts of the clicked anchor the service reads. `hasDownload` is
      `getAttribute('download') != null`; `hrefIsResolved` stands for
      `anchor.href` being equal to the href the browser resolves for
      `pathname + search + hash`, which is false for links to another
      origin or with a non-path scheme. */
  datatype Anchor = Anchor(
    target: string,
    hasDownload: bool,
    pathname: string,
    search: string,
    hash: string,
    hrefIsResolved: bool)

  /** The URL `handleAnchorClick` navigates to. */
  function RelativeUrl(anchor: Anchor): string {
    anchor.pathname + anchor.search + anchor.hash
  }

  /** When the browser should handle a click itself: a modifier or
      non-primary button, a target other than this frame, a download, a
      link that leaves the site, or a path whose last segment has an
      extension (or that has no '/'). */
  predicate LeaveToBrowser(anchor: Anchor, button: int, ctrlKey: bool, metaKey: bool) {
    || button != 0 || ctrlKey || metaKey
    || (anchor.target != "" && anchor.target != "_self")
    || anchor.hasDownload
    || !anchor.hrefIsResolved
    || !IsDocumentPath(anchor.pathname)
  }

  /** `go` with `null`, `undefined` or "" does nothing; any other URL
      navigates, in-app or by a page load, to its stripped form. */
  lemma {:induction false} GoIgnoresOnlyFalsyUrls(url: Option<string>, activated: bool)
    ensures GoTarget(url, activated) == Ignore <==> url.None? || url.value == ""
    ensures url.Some? && url.value != "" ==>
      GoTarget(url, activated) == (if StartsWith(StripSlashes(url.value), "http") || activated
                                   then External(StripSlashes(url.value))
                                   else InApp(StripSlashes(url.value)))
  {
  }

  /** Once an update has been activated, no URL is navigated in-app. */
  lemma {:induction false} ActivatedNeverNavigatesInApp(url: Option<string>)
    ensures !GoTarget(url, true).InApp?
  {
  }

  /** What `go` pushes in-app has no leading '/', is not an http URL, and
      is only pushed while no update is active. */
  lemma {:induction false} InAppUrlIsRelative(url: Option<string>, activated: bool)
    requires GoTarget(url, activated).InApp?
    ensures var u := GoTarget(url, activated).url;
      && !activated
      && u == StripSlashes(url.value)
      && !StartsWith(u, "/")
      && !StartsWith(u, "http")
  {
  }

  /** The URL stream carries what `go` stripped, and `currentUrl` strips it
      again: after `go("a/?b/")` the history holds "a?b/" but `currentUrl`
      reads "a?b". */
  lemma CurrentUrlStripsTwice()
    ensures GoTarget(Some("a/?b/"), false) == InApp("a?b/")
    ensures StripSlashes(GoTarget(Some("a/?b/"), false).url) == "a?b"
  {
    StripSlashesFirstPass();
    StripSlashesSecondPass();
    NotHttp("a?b/");
    GoInApp("a/?b/");
  }

  /** A string whose first character is not 'h' does not match `/^http/`. */
  lemma {:induction false} NotHttp(s: string)
    requires s != [] && s[0] != 'h'
    ensures !StartsWith(s, "http")
  {
  }

  /** With no update activated, `go` navigates in-app to the stripped URL
      whenever that does not start with "http". */
  lemma {:induction false} GoInApp(url: string)
    requires url != "" && !StartsWith(StripSlashes(url), "http")
    ensures GoTarget(Some(url), false) == InApp(StripSlashes(url))
  {
  }

  /** A click that the service handles always reaches `go` with a URL that
      is not ignored: the path holds a '/'. */
  lemma {:induction false} HandledClickNavigates(anchor: Anchor, button: int, ctrlKey: bool, metaKey: bool, activated: bool)
    requires !LeaveToBrowser(anchor, button, ctrlKey, metaKey)
    ensures GoTarget(Some(RelativeUrl(anchor)), activated) != Ignore
  {
  }

  /** A document link whose path, once its leading '/' is gone, starts with
      "http" (such as "/httpclient") passes every check of
      `handleAnchorClick`, yet `go` sends it to a full page load rather
      than in-app navigation. */
  lemma {:induction false} HttpNamedDocumentLeavesApp(segment: string)
    requires '/' !in segment && '.' !in segment && StartsWith(segment, "http")
    ensures var anchor := Anchor("", false, ['/'] + segment, "", "", true);
      && !LeaveToBrowser(anchor, 0, false, false)
      && GoTarget(Some(RelativeUrl(anchor)), false) == External(segment)
  {
    var anchor := Anchor("", false, ['/'] + segment, "", "", true);
    var url := RelativeUrl(anchor);
    assert url == ['/'] + segment;
    SingleSegmentPath(segment);
    assert IsDocumentPath(anchor.pathname);
    assert StripSlashes(url) == segment;
    assert url != "";
  }

  /** "/" followed by one segment without '/' and '.' is a document path,
      and stripSlashes only drops its '/'. */
  lemma {:induction false} SingleSegmentPath(segment: string)
    requires segment != "" && '/' !in segment && '.' !in segment
    ensures IsDocumentPath(['/'] + segment)
    ensures StripSlashes(['/'] + segment) == segment
  {
    var p := ['/'] + segment;
    assert p[1..] == segment;
    assert LastIndexOf(p, '/') == 0 by {
      assert p[0] == '/';
      assert forall k :: 1 <= k < |p| ==> p[k] == segment[k - 1];
    }
    assert StripLeadingSlashes(p) == segment;
    forall k | 0 <= k < |segment| ensures !TrailingRunAt(segment, k) {
      assert segment[k] != '/';
    }
  }

  class LocationService {
    /** Set once a service-worker update has been activated; never reset. */
    var swUpdateActivated: bool
    /** Every raw URL handed to `urlSubject.next`, oldest first. */
    var emitted: seq<string>
    /** Every URL handed to `location.go`, oldest first. */
    var history: seq<string>
    /** Every full page navigation through `window.location`, oldest first. */
    var pageLoads: seq<PageLoad>
    /** Every `platformLocation.replaceState` call, oldest first. */
    var replacedStates: seq<ReplacedState>

    /** The stream has its initial value, and no URL pushed into the in-app
        history starts with '/' or with "http". */
    ghost predicate Valid()
      reads this
    {
      && |emitted| > 0
      && forall k :: 0 <= k < |history| ==>
           !StartsWith(history[k], "/") && !StartsWith(history[k], "http")
    }

    /** The latest value of `currentUrl`: the latest emission, stripped on
        the way out. */
    function CurrentUrl(): (url: string)
      reads this
      requires |emitted| > 0
      ensures url == [] || url[0] != '/'
    {
      StripSlashes(emitted[|emitted| - 1])
    }

    /** The latest value of `currentPath`. */
    function CurrentPath(): (path: string)
      reads this
      requires |emitted| > 0
      ensures '?' !in path && '#' !in path
      ensures |path| <= |CurrentUrl()| && path == CurrentUrl()[..|path|]
    {
      PathOf(CurrentUrl())
    }

    /** The service as constructed: the URL stream starts with the host's
        current path (`location.path(true)`) and no update is active. */
    constructor (initialPath: string)
      ensures Valid()
      ensures !swUpdateActivated
      ensures emitted == [initialPath] && history == [] && pageLoads == [] && replacedStates == []
    {
      swUpdateActivated := false;
      emitted := [initialPath];
      history := [];
      pageLoads := [];
      replacedStates := [];
    }

    /** The `location.subscribe` callback: re-publishes the URL of a host
        navigation (a popstate), or "" when it has none. */
    method OnLocationChange(url: Option<string>)
      requires Valid()
      modifies this`emitted
      ensures Valid()
      ensures emitted == old(emitted) + [if url.None? then "" else url.value]
    {
      emitted := emitted + [if url.None? then "" else url.value];
    }

    /** The `updateActivated` subscription. */
    method OnUpdateActivated()
      requires Valid()
      modifies this`swUpdateActivated
      ensures Valid()
      ensures swUpdateActivated
    {
      swUpdateActivated := true;
    }

    /** What `go(url)` leaves behind, given the state before the call. */
    twostate predicate Navigated(url: Option<string>)
      reads this
    {
      && swUpdateActivated == old(swUpdateActivated)
      && replacedStates == old(replacedStates)
      && match GoTarget(url, old(swUpdateActivated))
         case Ignore =>
           history == old(history) && emitted == old(emitted) && pageLoads == old(pageLoads)
         case External(u) =>
           history == old(history) && emitted == old(emitted) && pageLoads == old(pageLoads) + [Assign(u)]
         case InApp(u) =>
           history == old(history) + [u] && emitted == old(emitted) + [u] && pageLoads == old(pageLoads)
    }

    /** `go(url)`. */
    method Go(url: Option<string>)
      requires Valid()
      modifies this`history, this`emitted, this`pageLoads
      ensures Valid()
      ensures Navigated(url)
      ensures GoTarget(url, old(swUpdateActivated)).InApp? ==>
        CurrentUrl() == StripSlashes(GoTarget(url, old(swUpdateActivated)).url)
    {
      if url.None? || url.value == "" {
        return;
      }
      var stripped := StripSlashes(url.value);
      if StartsWith(stripped, "http") || swUpdateActivated {
        GoExternal(stripped);
      } else {
        history := history + [stripped];
        emitted := emitted + [stripped];
      }
    }

    /** `goExternal(url)`: `window.location.assign(url)`. */
    method GoExternal(url: string)
      requires Valid()
      modifies this`pageLoads
      ensures Valid()
      ensures pageLoads == old(pageLoads) + [Assign(url)]
    {
      pageLoads := pageLoads + [Assign(url)];
    }

    /** `replace(url)`: `window.location.replace(url)`. */
    method Replace(url: string)
      requires Valid()
      modifies this`pageLoads
      ensures Valid()
      ensures pageLoads == old(pageLoads) + [PageLoad.Replace(url)]
    {
      pageLoads := pageLoads + [PageLoad.Replace(url)];
    }

    /** `setSearch(label, params)`, with `title` the label, `pathname` the host's current
        `platformLocation.pathname` and `params` the dictionary's entries in
        `Object.keys` order. */
    method SetSearch(title: string, params: seq<(string, Option<string>)>, pathname: string, encode: Encoder)
      requires Valid()
      modifies this`replacedStates
      ensures Valid()
      ensures replacedStates == old(replacedStates) + [ReplacedState(title, pathname + QueryString(params, encode))]
    {
      var search := QueryString(params, encode);
      replacedStates := replacedStates + [ReplacedState(title, pathname + search)];
    }

    /** `handleAnchorClick(anchor, button, ctrlKey, metaKey)`: true when the
        browser should handle the click, false when the service navigated
        in-app with `go`. */
    method HandleAnchorClick(anchor: Anchor, button: int := 0, ctrlKey: bool := false, metaKey: bool := false)
      returns (browserHandles: bool)
      requires Valid()
      modifies this`history, this`emitted, this`pageLoads
      ensures Valid()
      ensures browserHandles == LeaveToBrowser(anchor, button, ctrlKey, metaKey)
      ensures browserHandles ==>
        history == old(history) && emitted == old(emitted) && pageLoads == old(pageLoads)
      ensures !browserHandles ==> Navigated(Some(RelativeUrl(anchor)))
    {
      if button != 0 || ctrlKey || metaKey {
        return true;
      }
      var anchorTarget := anchor.target;
      if anchorTarget != "" && anchorTarget != "_self" {
        return true;
      }
      if anchor.hasDownload {
        return true;
      }
      var relativeUrl := anchor.pathname + anchor.search + anchor.hash;
      if !anchor.hrefIsResolved || !IsDocumentPath(anchor.pathname) {
        return true;
      }
      Go(Some(relativeUrl));
      return false;
    }
  }
}
