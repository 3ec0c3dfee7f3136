# Native asset interception of shiny-colours, in Dafny

`lib/preload.js` is the preload script of the shiny-colours Electron shell. When
`config.native.enable` is set, it installs an asset-interception layer in the game page:

- `window.androidNative` (the `native` object) downloads assets into a local cache folder and
  loads them back;
- `window.Image` is replaced by `ImageProxy`, whose `src` setter sends `/assets` URLs to
  `native.loadNative` and hands the result to the original setter as a `data:image/...` URL;
- `window.XMLHttpRequest` is replaced by `Request`, which serves `/assets` URLs from the cache
  and keeps its own `_readyState`, `_status` and `_response`;
- `native.downloadAssets` pre-downloads a manifest in groups of ten and reports progress,
  completion or failure through `nativeBridgeForResourceDownload`.

The model is organised as the program is:

| file | module | what it holds |
|---|---|---|
| `wrappers.dfy` | `Wrappers` | `Option` |
| `strings.dfy` | `Strings` | JavaScript's `indexOf` and `String.prototype.replace` with a string pattern (first occurrence only, `$` patterns of the replacement expanded) |
| `base64.dfy` | `Base64` | `btoa`: the Base64 encoding of section 4 of RFC 4648, its decoder and the round trip |
| `paths.dfy` | `CachePaths` | the URL-to-path rewrites of `downloadAsset` and `loadNative`, and `path.extname` |
| `values.dfy` | `Values` | the JavaScript values the proxies store, with JavaScript truthiness |
| `io.dfy` | `Io` | the file system (`stat`, `readFile`, `writeFile`) as a map from path to octets, and `fetch` as an oracle from URL to response body |
| `scheduler.dfy` | `Scheduler` | what `downloadAssets` reports, as a state machine over the outcomes of the downloads it starts |
| `native.dfy` | `Native` | `_arrayBufferToBase64` and the `native` object as a class over the file system and the network |
| `proxies.dfy` | `Proxies` | `srcProperty`, the image MIME choice, and the classes `ImageProxy` and `Request` |

Imperative code keeps its form. `_arrayBufferToBase64` is a loop. `downloadAssets` is a loop over
the manifest with the `group` list, the `now` counter and the shared cancel flag. `ImageProxy` and
`Request` are classes whose fields their methods update. The path rewrites, the MIME choice, the
routing predicates and `srcProperty` are functions.

`loadNative` is asynchronous, and its callbacks run after the `src` setter or `send` that
started it has returned. Accordingly, `ImageProxy.SetSrc` and `Request.Send` return the pending
callbacks of the load (their file accesses are performed at once). The proxies' `Deliver` methods
later run those callbacks, in the order `loadNative` makes them: each `onError`, then `onLoad`.
Whatever the proxy's state is at that point (its `url`, the response type) is what
`onloadByNative` reads, as in the source.

Where the code and the design intent differ, the model follows the code:

- `downloadAssets` writes no version file. The manifest's `version` is read and never used, and
  the asset version the page sees is the constant `"104"`.
- The cancel flag is checked before every item, not per group. JavaScript runs the loop without
  interruption between `await`s, so the flag can only change from the start of a group's await
  until the next item is checked. That covers the pending downloads and the `onProgress` or
  `onError` report that follows them, since a report runs synchronously inside the loop and may
  itself call `downloadCancel()`. The model states when `downloadCancel()` is called with
  `cancelAt`, the index of that group. This holds whether the group succeeds or fails. After a
  failure the run returns, but the flag stays set, so the next `downloadAssets` starts cancelled.
- A trailing group of fewer than ten downloads is started but never awaited, and it produces no
  progress report.
- `onComplete` is called after a cancelled run too.
- `loadNative` ignores `cache_folder`. With a folder other than `assets`, a freshly downloaded
  asset is written where `loadNative` does not read it (`Native.Native.LoadMissWithOtherFolder`).
- `cache_folder` is the replacement string of `replace`, so its `$` patterns are expanded:
  `$&` gives `/assets`, `$'` the rest of the URL, and `` $` `` nothing. The folder
  ``assets$` `` therefore behaves like `assets` (`CachePaths.PatternFolderMatchesLoadPath`).
- `Request.open` forwards all five arguments, including an `async` of `undefined` when the page
  called `open(method, url)`. WebIDL converts that to `false`, so the wrapped request becomes
  synchronous. An intercepted `send` on a synchronous request with an empty response type then
  throws when it assigns `"text"`, and starts no load (`Proxies.Request.Send`).
- A `send` the proxy forwards throws as the wrapped `send` does: when the request is not OPENED
  (an `open` that threw, or none) or was already sent.
- `loadNative` does not return after calling `onError`: `onLoad` always follows, with whatever
  could be read (`undefined`, or the Base64 of nothing for `"text"`).
- The MIME type for a `.gif` extension is `image/gif`.

## Model

| member | source | states |
|---|---|---|
| Strings.IndexOf | lib/preload.js:88-89 | `indexOf(pat, from)` finds the first occurrence at or after `from`, or reports that there is none |
| Strings.Substitute | lib/preload.js:88 | the text inserted for a match: `$$`, `$&`, `` $` `` and `$'` expanded, every other character kept; its properties are `SubstituteLiteral` and `SubstituteLengthMonotone` |
| Strings.Replace | lib/preload.js:88-89 | `replace` with a string pattern, defined through `ReplaceFrom`; what it does is stated by `ReplaceWithoutOccurrence`, `ReplaceAtFirstOccurrence` and the lemmas after them |
| Strings.ReplaceFromFound | lib/preload.js:88-89 | the search inside `replace` replaces exactly the occurrence `indexOf` finds, keeping the text before and after it |
| Strings.ReplaceFromNotFound | lib/preload.js:88-89 | the search inside `replace` returns the string unchanged when `indexOf` finds no occurrence |
| Strings.SubstituteLiteral | lib/preload.js:88-89 | a replacement without `$` is inserted as written |
| Strings.SubstituteLengthMonotone | lib/preload.js:88 | the longer the text after the match, the longer the expansion |
| Strings.ReplaceWithoutOccurrence | lib/preload.js:88-89 | a string with no occurrence of the pattern is left unchanged by `replace` |
| Strings.ReplaceAtFirstOccurrence | lib/preload.js:88-89 | `replace` substitutes exactly the first occurrence of the pattern, expanded against the text before and after it, and keeps that text |
| Strings.ReplaceAtStart | lib/preload.js:88 | a string starting with the pattern has that prefix replaced, with nothing before the match |
| Strings.ReplaceLiteralLength | lib/preload.js:89 | replacing an occurrence by a literal text changes the length by the difference |
| Strings.SameFirstOccurrence | lib/preload.js:89 | in `m + pat + t` the first occurrence lies within `m + pat`, whatever `t` is |
| Strings.SameOccurrenceWithin | lib/preload.js:89 | whether `pat` occurs at a position that ends inside `p` does not depend on what follows `p` |
| Strings.ReplaceKeepsTail | lib/preload.js:89 | the text after the first occurrence passes through a literal replacement untouched |
| Strings.ReplaceInjectiveAfterMarker | lib/preload.js:89 | the text after the first occurrence of the marker can be recovered from the result of `replace`, even when `$'` copies it, so different suffixes give different results |
| Base64.Encode | lib/preload.js:72 | `btoa` of one character per octet, three octets per block; its properties are `EncodeLength`, `EncodeAlphabet`, `DecodeEncode` and `EncodeInjective` |
| Base64.EncodeLength | lib/preload.js:72 | the encoding has 4 characters per started group of 3 octets |
| Base64.EncodeAlphabet | lib/preload.js:72 | every character of an encoding is in the RFC 4648 alphabet or is the pad character `=` |
| Base64.DecodeEncode | lib/preload.js:72 | decoding an encoding gives back exactly the octets encoded (the round trip `atob(btoa(x)) == x`) |
| Base64.EncodeInjective | lib/preload.js:72 | different octet sequences never have the same encoding |
| Base64.Btoa | lib/preload.js:72 | `btoa` succeeds exactly on strings whose characters are all below 256, and its result decodes to the octets those characters stand for |
| Base64.Decode | lib/preload.js:356 | `atob` on padded Base64; `DecodeEncode` proves it inverts `Encode` |
| Values.Truthy | lib/preload.js:253-259 | JavaScript truthiness as the getters test it: `undefined`, `null`, `0` and empty strings are falsy; buffers are always truthy |
| Io.FileStore.Exists | lib/preload.js:93 | `stat` succeeds exactly on a present path |
| Io.FileStore.ReadFile | lib/preload.js:162 | `readFile` yields the content of a present path and rejects otherwise |
| Io.FileStore.WriteFile | lib/preload.js:100 | `writeFile` is logged, and replaces the content exactly when the write is allowed |
| Io.Network.Fetch | lib/preload.js:96-97 | `fetch` is logged and yields the oracle's answer for the URL |
| Native.ArrayBufferToBase64 | lib/preload.js:65-73 | after the loop that appends one character per octet, the result is the Base64 encoding of the octets, 4 characters per started group of 3, and it decodes back to them |
| CachePaths.CacheFolder | lib/preload.js:88 | `cache_folder ?? "assets"`; used by `DownloadPath` |
| CachePaths.DownloadPath | lib/preload.js:84-90 | the path `downloadAsset` uses: two first-occurrence replacements; stated by `DownloadPathOfAssetUrl`, `VersionedDownloadPath` and `DistinctVersionsDistinctDownloadPaths` |
| CachePaths.DropFirst | lib/preload.js:145 | `url.substr(1)`; used by `LoadPath` |
| CachePaths.LoadPath | lib/preload.js:142-146 | the path `loadNative` uses; stated by `DefaultFolderMatchesLoadPath`, `DistinctVersionsDistinctLoadPaths` and `CacheFolderIgnoredByLoad` |
| CachePaths.FolderText | lib/preload.js:88 | the text that takes the place of `/assets`: the cache folder with its `$` patterns expanded against a match at the start of the URL |
| CachePaths.DownloadPathOfAssetUrl | lib/preload.js:84-90 | for a URL starting with `/assets`, the download path replaces that prefix with the expanded `cache_folder ?? "assets"`, then the first `?v=` with `.` |
| CachePaths.FolderTextLiteral | lib/preload.js:88 | a cache folder without `$` takes the place of `/assets` as written |
| CachePaths.DefaultFolderMatchesLoadPath | lib/preload.js:142-146 | without a cache folder, the path `downloadAsset` writes equals the path `loadNative` reads, for every `/assets` URL |
| CachePaths.PatternFolderMatchesLoadPath | lib/preload.js:84-90 | the folder ``assets$` `` expands to `assets`, so it too writes every `/assets` URL where `loadNative` reads it |
| CachePaths.ReplaceVersionMarker | lib/preload.js:89 | in `m?v=tag`, where `m` holds no `?v=`, the marker right after `m` is the one replaced by `.` |
| CachePaths.VersionedDownloadPath | lib/preload.js:84-90 | a versioned URL `base?v=tag` is cached at the expanded folder, the rest of `base`, `.` and `tag` |
| CachePaths.DownloadPathEndsWithTag | lib/preload.js:84-90 | the download path of `base?v=tag` ends with the tag, after a head one character longer than the expanded folder and the rest of `base` |
| CachePaths.DistinctVersionsDistinctDownloadPaths | lib/preload.js:84-90 | two versions of the same asset never share a download path, whatever the cache folder and its `$` patterns |
| CachePaths.DistinctVersionsDistinctLoadPaths | lib/preload.js:142-146 | two versions of the same asset never share a load path |
| CachePaths.CacheFolderIgnoredByLoad | lib/preload.js:142-146 | with a cache folder whose expansion is not `assets`, the download path and the load path of a versioned asset differ |
| CachePaths.Extname | lib/preload.js:193 | `path.extname`, read backwards from the end of the path; stated by `ExtnameIsExtension` and `ExtnameOfFile` |
| CachePaths.ExtnameIsExtension | lib/preload.js:193 | `extname` is empty or a suffix of the path that starts with `.` and holds no further `.` and no `/` |
| CachePaths.ExtnameOfFile | lib/preload.js:193 | the extension of `dir/name.ext` is `.ext`, and a `?v=` tag stays inside it |
| Native.AssetUrl | lib/preload.js:115 | `file + version`; collected in order by `AssetUrls` |
| Native.AssetUrls | lib/preload.js:113-115 | the URLs of the entries, one per entry, in order |
| Native.Payload | lib/preload.js:168-172 | what `onLoad` receives; `TextPayloadDecodes` and `Proxies.ServedResponse` state its properties |
| Native.LoadCallbacks | lib/preload.js:148-172 | `onError` once for a failed download and once for a failed read, then `onLoad` always, with the Base64 of what was read for `"text"` and the content otherwise |
| Native.TextPayloadDecodes | lib/preload.js:168-169 | a `"text"` payload is a string that decodes to exactly the file's octets |
| Native.Native.constructor | lib/preload.js:75-78 | the cancel flag starts set exactly when `skip_download` is set |
| Native.Native.DownloadSucceeds | lib/preload.js:91-101 | `downloadAsset` resolves when the path exists or the fetch resolves and the write succeeds; `DownloadAsset` is proved to return it |
| Native.Native.AfterDownload | lib/preload.js:91-101 | the files after `downloadAsset`; `DownloadAsset` is proved to leave the store so |
| Native.Native.DownloadCancel | lib/preload.js:136-138 | `downloadCancel()` sets the flag |
| Native.Native.DownloadAsset | lib/preload.js:83-102 | no fetch and no write when the download path exists; otherwise exactly one fetch of the URL and, when the fetch resolved, one write of its body to that path; the result says whether the call resolved |
| Native.Native.FilesAfterLoad | lib/preload.js:148-160 | the files after `loadNative`; `LoadNative` is proved to leave the store so, and `LoadCached` and `LoadMissWithDefaultFolder` state its cases |
| Native.Native.LoadResult | lib/preload.js:148-172 | the callbacks of `loadNative`; `LoadNative` is proved to make them, and `LoadCached`, `LoadMissWithDefaultFolder` and `LoadMissWithOtherFolder` state its cases |
| Native.Native.LoadFetches | lib/preload.js:148-157 | `loadNative` fetches at most its own URL, and never when the load path exists |
| Native.Native.LoadWrites | lib/preload.js:148-157 | `loadNative` writes at most the download path, and only after fetching |
| Native.Native.LoadNative | lib/preload.js:141-173 | the files, the callbacks, the fetches and the writes are those `FilesAfterLoad`, `LoadResult`, `LoadFetches` and `LoadWrites` give |
| Native.Native.LoadCached | lib/preload.js:149-172 | a cached asset is delivered as it is, with no error, no fetch, no write and no change to the files |
| Native.Native.LoadMissWithDefaultFolder | lib/preload.js:149-172 | without a cache folder, a missing asset whose fetch and write succeed is fetched once, written once where it is read, and delivered with no error |
| Native.Native.LoadMissWithOtherFolder | lib/preload.js:141-172 | with a cache folder whose expansion is not `assets`, a missing versioned asset is written where it is not read: `onError` for the read, and `onLoad` with nothing |
| Native.Native.RunDownloads | lib/preload.js:83-119 | downloads run one after another: a URL is fetched only when its path is absent at its turn, and written only when it answered; `DownloadAssets` is proved to match it |
| Native.Native.AllDownloadsSucceed | lib/preload.js:91-101 | when every URL answers and every path can be written, every download succeeds, every path holds a file afterwards and no file is lost |
| Native.Native.CachedDownloads | lib/preload.js:91-94 | downloads whose paths are all present succeed with no fetch, no write and no change to the files |
| Native.Native.DownloadEntry | lib/preload.js:113-119 | one entry's download is started with the URL `file + version`, its outcome and files are those of `downloadAsset`, and the logs advance by one step of `RunDownloads` |
| Native.Native.PushOutcome | lib/preload.js:119-132 | a started download joins the group; a full group takes any `downloadCancel()` made during its await, advances the counter and reports progress when all its downloads succeeded, and reports an error and ends the run otherwise (as `Scheduler.Step`) |
| Native.Native.DownloadAssets | lib/preload.js:103-135 | the downloads started, the reports and the final flag are those of the `Scheduler` state machine; the outcomes, the files, the fetches and the writes are those of `RunDownloads` over the started entries' URLs |
| Scheduler.Step | lib/preload.js:113-132 | one started download and, every tenth, the await of its group; `InvStep` and `InvAdvance` state what it keeps |
| Scheduler.Percent | lib/preload.js:125 | the progress value is between 0 and 100 while the counter is within the total, and is 100 exactly when every entry is counted |
| Scheduler.Start | lib/preload.js:107-110 | the loop starts with the counter at 0, an empty group, no reports, and the cancel flag as it stands |
| Scheduler.Running | lib/preload.js:117 | the loop goes on while the flag is clear and no group has failed |
| Scheduler.Scheduled | lib/preload.js:113-119 | a sequence of outcomes the loop can produce: each entry is started only while the loop is running |
| Scheduler.Finished | lib/preload.js:113-133 | the loop has ended: every entry was visited, the flag was set, or a group failed |
| Scheduler.Replay | lib/preload.js:113-132 | the loop's state after a sequence of outcomes; `ReplayInvariant` states its invariant |
| Scheduler.Reports | lib/preload.js:124-134 | all reports of a run, with `onComplete` unless a group failed; `RunReports` states them |
| Scheduler.ScheduledExtend | lib/preload.js:113-119 | starting one more download while the loop runs keeps the run well scheduled and advances the state by one step |
| Scheduler.InvStep | lib/preload.js:113-132 | one step of the loop preserves the invariant that ties the counter, the current group, the reports and the flag to the outcomes |
| Scheduler.InvAdvance | lib/preload.js:121-126 | awaiting a full group of successful downloads advances the counter by ten and adds its progress report |
| Scheduler.InvFail | lib/preload.js:121-131 | the await of a full group that holds a failed download marks the run failed, adds the `onError` report and keeps a cancel made during that await |
| Scheduler.ReplayInvariant | lib/preload.js:103-135 | the invariant holds after every scheduled sequence of downloads |
| Scheduler.FullGroups | lib/preload.js:121-131 | the counter counts the downloads of the awaited groups; the run failed exactly when a full group held a failed download |
| Scheduler.ProgressesIncrease | lib/preload.js:124-125 | progress values strictly increase |
| Scheduler.RunReports | lib/preload.js:103-135 | a finished run reports one progress per awaited group, then exactly one of `onError` (a full group failed) or `onComplete` (otherwise, cancelled or not) |
| Scheduler.CancelledBeforeStart | lib/preload.js:75-78 | with the flag set before the run, no download starts and `onComplete` is still reported |
| Scheduler.CancelStopsScheduling | lib/preload.js:117 | once `downloadCancel()` is called during an await, no download beyond that group starts |
| Scheduler.CancelDuringFailedGroup | lib/preload.js:121-138 | a `downloadCancel()` made while a failing group is awaited, or from its `onError`, leaves the flag set |
| Scheduler.UncancelledRun | lib/preload.js:103-135 | an uncancelled run whose downloads all succeed visits every entry, reports progress for every full group and none for the trailing partial one, and ends at 100% when the entries fill whole groups |
| Proxies.SrcProperty | lib/preload.js:181-186 | the descriptor found belongs to the first object on the chain that owns `src`; there is none exactly when no object owns it |
| Proxies.SrcPropertyIgnoresAncestors | lib/preload.js:181-186 | the descriptor found does not depend on the objects above its owner |
| Proxies.ImageType | lib/preload.js:193-204 | the image subtype is always one of png, gif, jpeg, webp |
| Proxies.ImageTypeTable | lib/preload.js:193-204 | the prefix tests in order give gif exactly for `.gif`, jpeg exactly for `.jpeg` or `.jpg`, webp exactly for `.webp`, and png for everything else |
| Proxies.DataUrl | lib/preload.js:195-203 | the data URL given to the original setter; `DataUrlShape` states its form |
| Proxies.DataUrlShape | lib/preload.js:195-203 | the value given to the original setter is `data:image/<type>;base64,` followed by the payload, and the proxy's own setter would pass it through unchanged |
| Proxies.GifAssetIsGif | lib/preload.js:193-197 | a GIF asset, versioned or not, is delivered as a GIF data URL |
| Proxies.RouteImage | lib/preload.js:217-226 | the setter loads natively exactly the URLs that start with `/assets` and not with `data:image/` |
| Proxies.ImageProxy.constructor | lib/preload.js:188-191 | a new image has no URL, has not called the original setter and has reported no error |
| Proxies.ImageProxy.Src | lib/preload.js:214-216 | the `src` getter returns `image.url`; `SetSrc` states what it is after each assignment |
| Proxies.ImageProxy.SetOnError | lib/preload.js:206-208 | assigning `image.onerror` decides whether `onerrorByNative` reports, and changes nothing else |
| Proxies.ImageProxy.SetSrc | lib/preload.js:217-234 | `""` changes nothing; otherwise the getter returns the URL; data URLs and URLs outside `/assets` reach the original setter unchanged and touch no file; asset URLs start `loadNative(url, ..., "text")` and do not reach the original setter yet; the pending callbacks end with `onLoad` of the Base64 of what was read, and the fetches and writes are those of `loadNative` |
| Proxies.ImageProxy.Deliver | lib/preload.js:192-210 | the load's callbacks report one error per `onError` when `onerror` is set, then give the original setter the data URL whose type follows the extension of the image's URL |
| Proxies.ImageProxy.OnloadByNative | lib/preload.js:192-205 | the original setter receives the data URL of the payload, typed by the extension of `image.url`; with no URL `extname` throws and nothing changes |
| Proxies.ImageProxy.OnerrorByNative | lib/preload.js:206-210 | an error is reported exactly when `onerror` is set |
| Proxies.Intercepts | lib/preload.js:396-424 | `send` intercepts exactly the `/assets` URLs outside `/assets/fonts` and `/assets/asset-map` whose extension does not start with `.m4a` |
| Proxies.InterceptedIsNativeImage | lib/preload.js:223 | every URL `send` intercepts, the image setter would load natively too |
| Proxies.NativeRequest.constructor | lib/preload.js:242 | a fresh `XMLHttpRequest` is UNSENT with status 0, empty response texts, no response type, no handlers, and has not been opened or sent |
| Proxies.NativeRequest.Open | lib/preload.js:393 | the wrapped `open` receives all five arguments; a synchronous `open` with a response type already set throws and changes nothing; otherwise the request is OPENED, synchronous exactly when `async` is falsy, its send() flag cleared, its status 0, its `response` `""` for the text types and `null` for the others, its `responseText` `""` for the text types, and `onreadystatechange`, if set, is called when the state was not already OPENED |
| Proxies.NativeRequest.RejectsResponseType | lib/preload.js:411-413 | when the wrapped `responseType` setter throws: LOADING, DONE, or a synchronous request |
| Proxies.NativeRequest.SetResponseType | lib/preload.js:411-413 | the wrapped `responseType` setter ignores a value outside the enumeration, throws without change on a loading, done or synchronous request, and otherwise sets the type and nothing else |
| Proxies.NativeRequest.RejectsSend | lib/preload.js:423 | when the wrapped `send` throws: the request is not OPENED, or its send() flag is set |
| Proxies.NativeRequest.Send | lib/preload.js:423 | the wrapped `send` throws, changing nothing, exactly as `RejectsSend` says; otherwise it records the body and sets the send() flag, changing nothing else |
| Proxies.NativeRequest.SetOnReadyStateChange | lib/preload.js:245-247 | assigning the wrapped `onreadystatechange` sets that handler and nothing else |
| Proxies.NativeRequest.SetOnLoad | lib/preload.js:309-311 | assigning the wrapped `onload` sets that handler and nothing else |
| Proxies.NativeRequest.SetOnError | lib/preload.js:317-319 | assigning the wrapped `onerror` sets that handler and nothing else |
| Proxies.Request.constructor | lib/preload.js:241-243 | a new request has no URL and no overrides, and wraps a fresh native request: UNSENT, status 0, empty response, asynchronous, never opened or sent, no handlers; so the getters show state 0, status 0 and empty texts |
| Proxies.Request.ReadyState | lib/preload.js:253-259 | the getter returns `_readyState` when it is truthy, the wrapped request's state otherwise |
| Proxies.Request.ResponseText | lib/preload.js:261-267 | the getter returns `_response` when it is truthy, as `response` does, and the wrapped `responseText` otherwise |
| Proxies.Request.Response | lib/preload.js:281-287 | the getter returns `_response` when it is truthy, the wrapped `response` otherwise |
| Proxies.Request.Status | lib/preload.js:289-295 | the getter returns `_status` when it is truthy, the wrapped status otherwise |
| Proxies.Request.Open | lib/preload.js:390-394 | `open` records the URL even when the wrapped `open` throws, forwards `method, url, async, user, password` with the wrapped `open`'s outcome and its reset of the state, status, `response` and `responseText`, and keeps the overrides of an earlier load and the handlers |
| Proxies.Request.SetResponseType | lib/preload.js:273-275 | the `responseType` setter forwards to the wrapped request, with its outcome, and leaves the wrapped state, status, response, flags and logs as they were |
| Proxies.Request.SetOnReadyStateChange | lib/preload.js:245-247 | the `onreadystatechange` setter installs the handler on the wrapped request and leaves the other handlers, its state, status, responses, type, flags and logs as they were |
| Proxies.Request.SetOnLoad | lib/preload.js:309-311 | the `onload` setter installs the handler on the wrapped request and leaves the other handlers, its state, status, responses, type, flags and logs as they were |
| Proxies.Request.SetOnError | lib/preload.js:317-319 | the `onerror` setter installs the handler on the wrapped request and leaves the other handlers, its state, status, responses, type, flags and logs as they were |
| Proxies.Request.Send | lib/preload.js:396-424 | before `open`, `send` throws and changes nothing; a forwarded URL reaches the wrapped `send`, which throws, changing nothing, unless the request is OPENED and not yet sent; an intercepted URL never does: an empty response type becomes `"text"` (and `send` throws, starting nothing, when the wrapped request refuses it), and `loadNative` is started with that type, with its files, callbacks, fetches and writes; the wrapped state and status stay as they were |
| Proxies.Request.Forward | lib/preload.js:396-408 | a forwarded `send` throws exactly when the wrapped one does, and otherwise records the body once and sets the send() flag |
| Proxies.OpenThenSend | lib/preload.js:390-424 | a page's `new XMLHttpRequest()`, asynchronous `open`, `onload =` and `send` end intercepted, never reaching the wrapped `send`, exactly for the URLs `Intercepts` accepts, and forwarded without an error for every other URL |
| Proxies.Request.StartLoad | lib/preload.js:410-421 | the intercepted branch fixes the response type or throws, and starts `loadNative` with that type |
| Proxies.Request.Deliver | lib/preload.js:353-388 | the load's callbacks fire `onerror` once per `onError` when it is set; then, unless `onloadByNative` throws, the overrides are set and the load events fire; when it throws, the overrides and the handlers are as before |
| Proxies.Request.OnloadByNative | lib/preload.js:353-382 | every branch sets `_readyState` to DONE and `_status` to 200, and `_response` as `ResponseOverride` says; then the getters return the truthy overrides; `onreadystatechange` fires if set, then `onload` if set, else a `load` event is dispatched |
| Proxies.Request.DecodeResponse | lib/preload.js:355-356 | the `"text"` branch keeps the octets the Base64 payload decodes to, and throws, changing nothing, on anything else |
| Proxies.Request.LoadEvents | lib/preload.js:372-381 | finishing a load fires one or two events, the last being `onload` or a dispatched `load` event, with `onreadystatechange` among them exactly when it is set |
| Proxies.Request.NotifyLoad | lib/preload.js:372-381 | exactly the load events fire, in order |
| Proxies.Request.OnerrorByNative | lib/preload.js:384-388 | `onerror` fires exactly when it is set |
| Proxies.ErrorEvents | lib/preload.js:384-388 | `n` calls of `onerrorByNative` fire `onerror` `n` times when it is set, and nothing otherwise |
| Proxies.ResponseOverride | lib/preload.js:353-371 | the `_response` `onloadByNative` sets, or a throw; `ServedResponse` states it for an intercepted load |
| Proxies.ServedResponse | lib/preload.js:353-371 | an intercepted request's load does not throw, its `_response` is the file's content (decoded from Base64 for `"text"`), and the getters show it exactly when the file was read and, for `"text"`, is not empty |

## Left out

- Proxies.Request.OnloadByNative: `decodeURIComponent(escape(...))` is kept as the octets it reads
  as UTF-8 (`Utf8Text`); the `URIError` it raises on octets that are not valid UTF-8 is not
  modelled, so the `"text"` branch throws only when `atob` does.
- Proxies.Request.OnloadByNative: `atob` is modelled on padded Base64 only. Its forgiving decoding
  (whitespace, missing padding) and its conversion of non-string arguments are not modelled. A
  non-string payload counts as one `atob` rejects.
- The real `fs` and `fetch` and the asynchrony of the downloads are not modelled. The file system
  is a map and the network an oracle. Each download runs to completion when it is started, and
  `Promise.all` becomes "the group succeeded exactly when each of its downloads did". A rejected
  download in a trailing, never-awaited group has no effect.
- `path.resolve` against `remote.app.getAppPath()` is not modelled. The file store is keyed by
  the relative path strings, so two strings count as two files. In Node, resolving normalises:
  `.` and `..` segments, repeated and trailing `/` disappear, and an absolute folder ignores the
  application directory. With `cache_folder` `./assets` or `assets/`, say, the source reads back
  what it wrote, while the model keeps the two paths apart.
- Native.Native.LoadMissWithOtherFolder: stated only for canonical paths (`CachePaths.Canonical`),
  and its conclusion holds for a case-sensitive POSIX file system only. There, POSIX
  `path.resolve` keeps such paths as written, so different strings are different files. On a
  file system that ignores case (the defaults of Windows and macOS), a folder such as `Assets`
  names the same files as `assets`, and the source reads back what it wrote. A folder that
  resolves onto `assets` is outside the premise.
- CachePaths.CacheFolderIgnoredByLoad: compares the two paths as strings. Different strings can
  still resolve to the same file, as the `path.resolve` line above explains.
- Proxies.NativeRequest.Open: the other checks of the XHR `open` (the method and URL syntax, a
  non-zero `timeout` on a synchronous request) are not modelled. `user` and `password` are only
  recorded; credentials play no part. The reset of `responseText` is stated for the text types
  only; for the other types its getter throws, which is not modelled.
- Proxies.Request.Send: a forwarded `send` on a synchronous request completes synchronously in the
  browser, firing the request's events and moving it to DONE. The model records the call and
  sets the send() flag, as for an asynchronous one. The network exchange of a forwarded request
  (its later states, status and response) is not modelled.
- CachePaths.Extname: models `path.extname` for the paths the layer handles. Trailing slashes and
  names made only of dots are not treated as Node treats them.
- Scheduler.RunReports: the bridge's callbacks (`onProgress`, `onError`, `onComplete`) are taken
  not to throw; the same holds for `Scheduler.Step` and `Native.Native.PushOutcome`. The
  `onProgress` call sits inside the `try` of line 122, so a page bridge whose `onProgress` throws
  makes the source report `onError` and return after a group whose downloads all succeeded. The
  model reports `onError` only for a group that held a failed download.
- Scheduler.Percent: progress is an exact rational number. Floating-point rounding of
  `(now / total) * 100` is not modelled.
- `JSON.parse` of the manifest is not modelled. The manifest is given parsed, as its entries in
  key order.
- DOM events: handlers and dispatched `load` events are recorded in a log of calls. The handlers'
  own effects, the `Error` objects passed to `onerror`, and exceptions thrown inside handlers are
  not modelled.
- The other members of `Request` are not modelled: `responseURL`, `statusText`, `timeout`,
  `abort`, the event-listener methods, the header methods, `toString`, the `onreadystatechange`
  getter, the `withCredentials` setter, and the `onabort`, `onloadstart`, `onprogress` and
  `ontimeout` setters. They only forward to the wrapped request.
- `downloadAsset` assigns the fetched body to `data` without declaring it (line 97). The script
  is not in strict mode, so this creates or overwrites a global `data` on every download. The
  model keeps the body local; the global is never read by the code modelled here.
- The no-op stubs of `native` are not modelled: `confirmApplicationFinish`, `currentAppVersion`,
  `removeOldAssets` and `json`. The same goes for the `window` globals set after the proxies
  (purchase stubs, version callbacks, the video-download placeholder) and the default
  `nativeBridgeForResourceDownload`, whose reports appear here as `Scheduler.Report` values.
- The console and `eval` patches and the Chinese-localisation script loader at the top of
  `lib/preload.js` are not modelled. `hack.js` and `lib/main.js` are not part of this model.
