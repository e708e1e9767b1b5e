# LocationService, modelled in Dafny

This project models the navigation service of a documentation single-page
application (`LocationService` in `src/app/shared/location.service.ts`). The
service does four things:

- It normalises URLs with `stripSlashes`.
- It publishes the current URL on a replay stream. `currentUrl` strips each
  value again when it is read, and `currentPath` cuts off the query and the hash.
- It decides in `go` whether a URL is navigated in-app (a `location.go` push
  plus an emission on the stream) or by a full page load. A page load happens
  when the stripped URL starts with `http`, or when a service-worker update
  has been activated.
- It parses the query string in `search` and rebuilds one in `setSearch`.

`handleAnchorClick` runs an ordered cascade of checks. It returns true when
the browser should handle a click. Otherwise it calls `go` and returns false.

Layout:

- `options.dfy` (`Options`): the Option type. `None` stands for `null`/`undefined`,
  or for a decode that throws.
- `urls.dfy` (`Urls`): the pure string logic. It covers `stripSlashes` (both regular
  expressions, each with a regular-expression reading and a proof that the
  function implements it), the `currentPath` mapping, `indexOf`, `lastIndexOf`,
  `split`/`join`, and the document-path test `/\/[^/.]*$/`.
- `search_params.dfy` (`SearchParams`): `search()` as a method. It fills the
  dictionary in a loop that stops at the first decode that throws. The file
  also has the specification function the method is proved against, the
  `setSearch` reduce as a function, and the round trip between the two.
- `location_service.dfy` (`Location`): the class `LocationService`. It holds
  the `swUpdateActivated` flag and, as sequences, everything the service hands
  to its collaborators: stream emissions, `location.go` pushes,
  `window.location` page loads and `replaceState` calls. Its methods are the
  source's entry points. The decision `go` takes is the function `GoTarget`,
  and the browser-or-service verdict of `handleAnchorClick` is
  `LeaveToBrowser`.

`encodeURIComponent` and `decodeURIComponent` are abstract. They are passed in
as functions, and decoding may fail. The round-trip lemma states what it needs
of them as one predicate, `UriCodecs`.

The stripping regex `/\/+(\?|#|$)/` is not global, so `stripSlashes` removes
only the leftmost run of `/` that is followed by `?`, `#` or the end. A run
later in the string stays. The function is therefore not idempotent: `"a/?b/"`
becomes `"a?b/"`, and a second pass gives `"a?b"`. `go` stores the
once-stripped URL and `currentUrl` strips it again, so after `go("a/?b/")`
the history entry is `"a?b/"` while `currentUrl` reads `"a?b"`. So a
stripped URL can still hold a `/` before `?`, `#` or the end of the string.
`StripSlashesFirstPass`, `StripSlashesSecondPass` and `CurrentUrlStripsTwice`
prove this.

A link to a document path such as `/httpclient` passes every check of
`handleAnchorClick`. But `go` strips the leading `/`, sees a URL starting with
`http`, and makes a full page load instead of navigating in-app
(`HttpNamedDocumentLeavesApp`). The model keeps this behaviour as written.

## Model

| member | source | states |
|---|---|---|
| `Urls.StartsWith` | src/app/shared/location.service.ts:44 | `/^http/.test(url)` for a literal prefix: a match means the string is the prefix followed by the rest of the string |
| `Urls.StartsWithAppend` | src/app/shared/location.service.ts:44 | every string made of the prefix and any rest matches, the converse of `StartsWith`'s contract |
| `Urls.StripLeadingSlashes` | src/app/shared/location.service.ts:63 | `^\/+` removes exactly the whole leading run of `/`: the result is the suffix after it, and it does not start with `/` |
| `Urls.StripSlashes` | src/app/shared/location.service.ts:62-64 | the result of `stripSlashes` never starts with `/` |
| `Urls.RunMatchesIsGreedyRun` | src/app/shared/location.service.ts:63 | `\/+(\?\|#\|$)` matches at a position exactly when the greedy run of `/` there is followed by `?`, `#` or the end, and its only end is the end of that run |
| `Urls.StripSlashesReplacesLeftmostMatch` | src/app/shared/location.service.ts:62-64 | after the leading run is gone, either the pattern matches nowhere and the text is kept, or the leftmost match, a whole run of `/` with no `/` before it, is cut out and everything else is kept |
| `Urls.StripSlashesFirstPass` | src/app/shared/location.service.ts:62-64 | `stripSlashes("a/?b/") == "a?b/"`: only the leftmost run is removed |
| `Urls.StripSlashesSecondPass` | src/app/shared/location.service.ts:62-64 | `stripSlashes("a?b/") == "a?b"`, so stripping twice differs from stripping once |
| `Urls.StripSlashesKeepsPlainPath` | src/app/shared/location.service.ts:62-64 | a string with no `?` or `#` that neither starts nor ends with `/` is left unchanged |
| `Urls.TrailingRunEndsString` | src/app/shared/location.service.ts:63 | without `?` and `#`, the only run the pattern can match ends the string, and the character before it is not `/` |
| `Urls.StripSlashesIdempotentWithoutQuery` | src/app/shared/location.service.ts:62-64 | on a URL with no `?` or `#`, the result does not end with `/`, and stripping it again changes nothing |
| `Urls.PathOf` | src/app/shared/location.service.ts:20-21 | the `currentPath` mapping gives the longest prefix of the URL that contains neither `?` nor `#` |
| `Urls.IndexOf` | src/app/shared/location.service.ts:69-70 | `indexOf` gives -1 exactly when the character is absent, and otherwise its first position |
| `Urls.LastIndexOf` | src/app/shared/location.service.ts:154 | gives -1 exactly when the character is absent, and otherwise its last position |
| `Urls.Split` | src/app/shared/location.service.ts:72-74 | `split` gives at least one part, and no part holds the separator |
| `Urls.JoinSplit` | src/app/shared/location.service.ts:72-74 | joining the parts of `split` back with the separator gives the input |
| `Urls.IndexOfAfter` | src/app/shared/location.service.ts:69 | the first separator in `a + sep + b`, when `a` holds none, is at position `\|a\|` |
| `Urls.SplitAfter` | src/app/shared/location.service.ts:72-74 | splitting `a + sep + b`, when `a` holds no separator, gives `a` followed by the parts of `b` |
| `Urls.SplitJoin` | src/app/shared/location.service.ts:72-74 | `split` undoes `join` when no part holds the separator |
| `Urls.IsDocumentPath` | src/app/shared/location.service.ts:154 | the document-path test as a check on the last path segment: the path has a `/` and the text after its last `/` holds no `.` (proved equal to the regular expression by the next row) |
| `Urls.IsDocumentPathMatchesRegex` | src/app/shared/location.service.ts:154 | `/\/[^/.]*$/` matches exactly when the path has a `/` and the text after its last `/` holds no `.` |
| `SearchParams.AddParam` | src/app/shared/location.service.ts:74-76 | the `forEach` body on one parameter: an empty key part leaves the dictionary as it was; the step throws exactly when the key part is non-empty and its decode throws, or a non-empty value part's decode throws; otherwise no key is removed |
| `SearchParams.ParseParams` | src/app/shared/location.service.ts:71-79 | the `try`/`forEach` over the parameters, left to right, with the state marked failed at the first throwing decode (its properties are the `FailureIsFinal`, `ParseOneMore` and `LaterValueWins` rows) |
| `SearchParams.SearchOf` | src/app/shared/location.service.ts:66-82 | the dictionary `search()` returns for a path: the entries of the parse of its parameters (the `Search` row proves the loop computes it) |
| `SearchParams.QueryParams` | src/app/shared/location.service.ts:69-72 | there are no parameters to walk exactly when the path has no `?` |
| `SearchParams.Search` | src/app/shared/location.service.ts:66-82 | the dictionary-filling loop returns the left-to-right parse of the parameters after the first `?`, stopping at the first decode that throws and keeping what came before |
| `SearchParams.ApplyParam` | src/app/shared/location.service.ts:73-78 | the `forEach` callback on one parameter gives the parse step for it (nothing when a decode throws), and never removes a key |
| `SearchParams.ParseOneMore` | src/app/shared/location.service.ts:73-78 | one more parameter runs the `forEach` body once more on the dictionary so far |
| `SearchParams.FailureIsFinal` | src/app/shared/location.service.ts:71-79 | once a decode has thrown, later parameters change nothing |
| `SearchParams.SearchWithoutQueryIsEmpty` | src/app/shared/location.service.ts:69-70 | a path with no `?` gives an empty dictionary |
| `SearchParams.EmptyKeyIsSkipped` | src/app/shared/location.service.ts:75 | a parameter whose key part is empty adds nothing |
| `SearchParams.KeyWithoutValue` | src/app/shared/location.service.ts:74-76 | `k` maps the decoded key to `undefined` |
| `SearchParams.KeyWithEmptyValue` | src/app/shared/location.service.ts:74-76 | `k=` maps the decoded key to `""` without decoding the value |
| `SearchParams.ValueEndsAtSecondEquals` | src/app/shared/location.service.ts:74-76 | `k=v=rest` maps the decoded key to the decoded `v` only |
| `SearchParams.AddParamSetsKey` | src/app/shared/location.service.ts:76 | a parameter with a decodable key sets that key to the same value, whatever the dictionary held before |
| `SearchParams.LaterValueWins` | src/app/shared/location.service.ts:73-76 | a later parameter overrides the value an earlier one gave the same key |
| `SearchParams.FailureKeepsEarlierEntries` | src/app/shared/location.service.ts:71-79 | after a decode throws, the result holds exactly the entries added before the failing parameter |
| `SearchParams.SearchExample` | src/app/shared/location.service.ts:66-82 | `"/docs?x=1&y=2"` gives `{x: "1", y: "2"}` |
| `SearchParams.ExampleQuery` | src/app/shared/location.service.ts:69-72 | in `"/docs?x=1&y=2"` the `?` is at 5, and the query splits into `x=1` and `y=2` |
| `SearchParams.ExampleSplit` | src/app/shared/location.service.ts:72 | `"x=1&y=2"` splits at `&` into `x=1` and `y=2` |
| `SearchParams.ExampleParams` | src/app/shared/location.service.ts:73-78 | the parameters `x=1`, `y=2` give `{x: "1", y: "2"}` |
| `SearchParams.ExampleFirstParam` | src/app/shared/location.service.ts:73-78 | the single parameter `x=1` gives `{x: "1"}` |
| `SearchParams.ExampleParam` | src/app/shared/location.service.ts:74-76 | `k=v` with plain text sets `k` to `v` |
| `SearchParams.ValueWithoutSecondEquals` | src/app/shared/location.service.ts:74 | `k=v` splits at `=` into `k` and `v` when neither holds `=` |
| `SearchParams.QueryString` | src/app/shared/location.service.ts:85-89 | the `setSearch` reduce: the result is `""` or starts with `?` |
| `SearchParams.Items` | src/app/shared/location.service.ts:85-89 | the `encode(k)=encode(v)` items the reduce appends: there are no more items than pairs, and there are none exactly when every value is `undefined` (`AllUndefined`); `QueryStringIsJoinedItems` ties them to the query string |
| `SearchParams.QueryStringIsJoinedItems` | src/app/shared/location.service.ts:85-89 | the `setSearch` reduce gives `""` when no value is defined, and otherwise `?` followed by the `encode(k)=encode(v)` items of the defined pairs, in key order, joined by `&` |
| `SearchParams.JoinSnoc` | src/app/shared/location.service.ts:88 | appending an item to a non-empty join adds `&` and the item |
| `SearchParams.AllUndefinedGivesEmpty` | src/app/shared/location.service.ts:87-89 | when every value is `undefined`, the query string is `""` |
| `SearchParams.QueryStringExample` | src/app/shared/location.service.ts:85-89 | `{a: "1", b: undefined}` gives `"?a=1"` |
| `SearchParams.AddItem` | src/app/shared/location.service.ts:74-76 | under `UriCodecs`, one written item `encode(k)=encode(v)` sets `k` to `v`, and changes nothing when `k` is `""` |
| `SearchParams.ParseItems` | src/app/shared/location.service.ts:73-78 | under `UriCodecs`, parsing the items `setSearch` writes gives the defined entries except one under the key `""`, and no decode fails |
| `SearchParams.ItemHasNoAmpersand` | src/app/shared/location.service.ts:88 | an encoded item holds no `&` |
| `SearchParams.SearchReadsBackSetSearch` | src/app/shared/location.service.ts:66-92 | under `UriCodecs` (decoding undoes encoding; an encoding holds no `&` or `=` and is empty only for `""`) and for a `pathname` without `?`, `search()` on `pathname + query` (the query `setSearch` wrote) gives exactly the keys with defined values, each with its value, the later one winning, except the key `""`, which `setSearch` writes as `=v` and `search()` skips |
| `SearchParams.DefinedKeysReadBack` | src/app/shared/location.service.ts:66-92 | under the same conditions, when every pair with a defined value has a non-empty key, `search()` gives back exactly the defined entries |
| `SearchParams.EmptyKeyIsLost` | src/app/shared/location.service.ts:75-88 | a defined pair with key `""` is written but `search()` on the result gives the empty dictionary |
| `Location.GoTarget` | src/app/shared/location.service.ts:41-51 | the decision `go` takes from the URL and the update flag: ignore, page load or in-app navigation (its contract is the next row) |
| `Location.GoIgnoresOnlyFalsyUrls` | src/app/shared/location.service.ts:41-51 | `go` does nothing exactly for `null`, `undefined` and `""`. Any other URL goes to a page load when its stripped form starts with `http` or an update is active, and in-app otherwise, always in stripped form |
| `Location.ActivatedNeverNavigatesInApp` | src/app/shared/location.service.ts:44-47 | once an update has been activated, no URL is navigated in-app |
| `Location.InAppUrlIsRelative` | src/app/shared/location.service.ts:43-50 | what `go` pushes in-app is the stripped URL, has no leading `/`, does not start with `http`, and is pushed only while no update is active |
| `Location.NotHttp` | src/app/shared/location.service.ts:44 | a string whose first character is not `h` does not match `/^http/` |
| `Location.GoInApp` | src/app/shared/location.service.ts:41-51 | with no update active, a non-empty URL whose stripped form does not start with `http` is navigated in-app to that stripped form |
| `Location.CurrentUrlStripsTwice` | src/app/shared/location.service.ts:17-18 | `go("a/?b/")` pushes and emits `"a?b/"`, but `currentUrl` reads `"a?b"` |
| `Location.RelativeUrl` | src/app/shared/location.service.ts:148-149 | the URL a handled click navigates to: `pathname + search + hash` |
| `Location.LeaveToBrowser` | src/app/shared/location.service.ts:133-156 | the cascade of `handleAnchorClick`: the browser handles the click exactly when a modifier or another button is used, the target is set and not `_self`, there is a download attribute, the link does not resolve to itself, or the path is not a document path |
| `Location.HandledClickNavigates` | src/app/shared/location.service.ts:148-159 | a click the service handles always reaches `go` with a URL that is not ignored |
| `Location.HttpNamedDocumentLeavesApp` | src/app/shared/location.service.ts:153-159 | a same-site link to `/` plus a segment that starts with `http` and has no `/` or `.` (such as `/httpclient`) passes every check of `handleAnchorClick`, but `go` turns it into a page load of the segment |
| `Location.SingleSegmentPath` | src/app/shared/location.service.ts:154 | `/` plus one segment with no `/` or `.` is a document path, and `stripSlashes` only drops its `/` |
| `Location.LocationService.CurrentUrl` | src/app/shared/location.service.ts:17-18 | the latest value of `currentUrl`, the latest emission stripped: it never starts with `/` |
| `Location.LocationService.CurrentPath` | src/app/shared/location.service.ts:20-21 | the latest value of `currentPath`: a prefix of the current URL that holds no `?` or `#` |
| `Location.LocationService.constructor` | src/app/shared/location.service.ts:25-37 | the stream starts with the host's current path, no update is active, and nothing has been navigated |
| `Location.LocationService.OnLocationChange` | src/app/shared/location.service.ts:33-35 | a host navigation emits its URL, or `""` when it has none, and changes nothing else |
| `Location.LocationService.OnUpdateActivated` | src/app/shared/location.service.ts:37 | the update event sets `swUpdateActivated`. Nothing else sets or clears it |
| `Location.LocationService.Go` | src/app/shared/location.service.ts:41-52 | a falsy URL changes nothing. A page load records only `assign` of the stripped URL. In-app navigation pushes the stripped URL to the history and emits the same URL once, so `currentUrl` becomes its stripped form. The flag is unchanged |
| `Location.LocationService.GoExternal` | src/app/shared/location.service.ts:54-56 | records one `window.location.assign` of the URL |
| `Location.LocationService.Replace` | src/app/shared/location.service.ts:58-60 | records one `window.location.replace` of the URL |
| `Location.LocationService.SetSearch` | src/app/shared/location.service.ts:84-92 | records one `replaceState` with the given label and `pathname` plus the query string of the reduce |
| `Location.LocationService.HandleAnchorClick` | src/app/shared/location.service.ts:129-161 | returns true exactly when: a button other than 0 or ctrl/meta is used; the target is non-empty and not `_self`; a download attribute is present; the href is not the resolved URL; or the path is not a document path. In those cases nothing changes. Otherwise it has the effect of `go(pathname + search + hash)` and returns false |

## Left out

- `src/app/sw-updates/sw-updates.service.ts` is not part of this model. It is reactive composition over timers, application stability and the service-worker runtime, with logging. Its only effect on this service is the `updateActivated` event, modelled as `OnUpdateActivated`.
- `ReplaySubject` and observable semantics. The URL stream is the sequence of emitted raw URLs. `currentUrl` and `currentPath` are `CurrentUrl` and `CurrentPath` applied to its latest value. Subscription timing is not modelled.
- `goExternal` and `replace` call `window.location` directly. They are recorded only as a `PageLoad` entry. What the browser then does is not modelled.
- DOM URL resolution through the hidden `urlParser` anchor (lines 13 and 150) is a browser call. It is replaced by the `hrefIsResolved` field of `Anchor`.
- The internals of `encodeURIComponent` and `decodeURIComponent` (percent-encoding). They are function parameters, and a throwing decode is `None`.
- Strings are sequences of Unicode scalar values, not JavaScript's UTF-16 code units. A lone surrogate cannot be represented, so the `URIError` that `encodeURIComponent` throws on one inside `setSearch` is not modelled, and lengths of characters outside the Basic Multilingual Plane differ from JavaScript's.
- The host values `location.path()` (read by `search`) and `platformLocation.pathname` (read by `setSearch`) are parameters. How Angular's `Location` normalises the URL it is given by `location.go` is not modelled. The history records the URL handed to it.
- `SearchParams.Search`: the dictionary is a plain JavaScript object. The model treats every key as an ordinary entry, so special keys such as `__proto__` do not get their prototype-setting behaviour.
- `Location.LocationService.SetSearch`: `Object.keys` order is taken as given, as the order of the `params` sequence. The engine's rule that integer-like keys come first is not modelled. The empty state object passed to `replaceState` is not recorded.
- Constructor wiring to Angular's `Location` and `PlatformLocation` is not modelled beyond seeding the stream with the initial path.
