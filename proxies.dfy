/** The proxies lib/preload.js installs in place of `window.Image` and
    `window.XMLHttpRequest`, which route asset URLs to `native.loadNative`. */
module Proxies {
  import opened Wrappers
  import opened Base64
  import opened Values
  import opened CachePaths
  import opened Native

  /** `srcProperty(obj)`: the `src` descriptor of the first object on the prototype chain
      (the object itself first; each object given by its own property table) that owns
      one. `None` stands for the TypeError raised when the chain ends without one. */
  function SrcProperty<D>(chain: seq<map<string, D>>): (r: Option<D>)
    ensures r.None? <==> forall i :: 0 <= i < |chain| ==> "src" !in chain[i]
    ensures r.Some? ==> exists i :: 0 <= i < |chain| && "src" in chain[i] && r.value == chain[i]["src"] &&
                           forall j :: 0 <= j < i ==> "src" !in chain[j]
    decreases |chain|
  {
    if |chain| == 0 then None
    else if "src" in chain[0] then Some(chain[0]["src"])
    else
      var r := SrcProperty(chain[1..]);
      assert forall i :: 1 <= i < |chain| ==> chain[i] == chain[1..][i - 1];
      r
  }

  /** The descriptor found does not depend on the objects above its owner. */
  lemma {:induction false} SrcPropertyIgnoresAncestors<D>(chain: seq<map<string, D>>, above: seq<map<string, D>>, i: nat)
    requires i < |chain| && "src" in chain[i]
    ensures SrcProperty(chain) == SrcProperty(chain[..i + 1] + above)
    decreases i
  {
    if "src" !in chain[0] {
      assert i > 0;
      SrcPropertyIgnoresAncestors(chain[1..], above, i - 1);
      assert (chain[..i + 1] + above)[1..] == chain[1..][..i] + above;
    }
  }

  /** The image subtype `onloadByNative` chooses from the extension, testing prefixes in
      order: `.png`, `.gif`, `.jpeg` or `.jpg`, `.webp`, and `png` for anything else. */
  function ImageType(ext: string): (t: string)
    ensures t == "png" || t == "gif" || t == "jpeg" || t == "webp"
  {
    if ".png" <= ext then "png"
    else if ".gif" <= ext then "gif"
    else if ".jpeg" <= ext || ".jpg" <= ext then "jpeg"
    else if ".webp" <= ext then "webp"
    else "png"
  }

  /** The table the order of the tests implements: each subtype is chosen exactly for its
      own prefixes, `png` for the rest. */
  lemma ImageTypeTable(ext: string)
    ensures ImageType(ext) == "gif" <==> ".gif" <= ext
    ensures ImageType(ext) == "jpeg" <==> ".jpeg" <= ext || ".jpg" <= ext
    ensures ImageType(ext) == "webp" <==> ".webp" <= ext
    ensures ImageType(ext) == "png" <==> !(".gif" <= ext || ".jpeg" <= ext || ".jpg" <= ext || ".webp" <= ext)
  {
    if ".png" <= ext {
      assert ext[1] == 'p';
    }
    if ".gif" <= ext {
      assert ext[1] == 'g';
    }
    if ".jpeg" <= ext || ".jpg" <= ext {
      assert ext[1] == 'j';
    }
  }

  const DataImagePrefix := "data:image/"

  /** The value `onloadByNative` gives the original `src` setter. */
  function DataUrl(ext: string, encoded: string): string {
    DataImagePrefix + ImageType(ext) + ";base64," + encoded
  }

  /** Where the image proxy's `src` setter sends a URL. */
  datatype ImageRoute = Ignored | OriginalSetter | LoadNatively

  function RouteImage(url: string): (r: ImageRoute)
    ensures r == LoadNatively <==> AssetsPrefix <= url && !(DataImagePrefix <= url)
  {
    if url == "" then Ignored
    else if DataImagePrefix <= url || !(AssetsPrefix <= url) then OriginalSetter
    else LoadNatively
  }

  /** A data URL built by `onloadByNative` is well formed (`data:image/<type>;base64,`
      followed by the payload) and would pass the proxy's setter unchanged. */
  lemma DataUrlShape(ext: string, encoded: string)
    ensures var d := DataUrl(ext, encoded);
      && d == DataImagePrefix + ImageType(ext) + ";base64," + encoded
      && |encoded| <= |d| && d[|d| - |encoded|..] == encoded
      && RouteImage(d) == OriginalSetter
  {
    var d := DataUrl(ext, encoded);
    assert d[..|DataImagePrefix|] == DataImagePrefix;
  }

  /** A GIF asset, versioned or not, is delivered as a GIF data URL: a `?v=` tag stays
      inside the extension, which still starts with `.gif` (`/assets/x.gif?v=2` gives
      `data:image/gif;base64,...`). */
  lemma GifAssetIsGif(dir: string, name: string, ext: string)
    requires |name| > 0 && '/' !in name && '/' !in ext && '.' !in ext && "gif" <= ext
    ensures ImageType(Extname(dir + "/" + name + "." + ext)) == "gif"
  {
    ExtnameOfFile(dir, name, ext);
    GifExtension(ext);
  }

  /** An extension `.` + `ext` with `ext` starting with `gif` is typed as a GIF. */
  lemma GifExtension(ext: string)
    requires "gif" <= ext
    ensures ImageType("." + ext) == "gif"
  {
    var dotted := "." + ext;
    assert dotted[1] == 'g';
    assert dotted[1..4] == ext[..3];
  }

  /** A proxied image (the object `new Image()` returns under the proxy). */
  class ImageProxy {
    /** `image.url`, which the `src` getter returns; undefined until first set. */
    var url: Option<string>
    /** Values passed to the original `src` setter, in order. */
    var givenToSetter: seq<string>
    /** Whether `image.onerror` is set. */
    var hasOnError: bool
    /** Calls of `image.onerror`. */
    var errorsReported: nat

    constructor ()
      ensures url.None? && givenToSetter == [] && !hasOnError && errorsReported == 0
    {
      url := None;
      givenToSetter := [];
      hasOnError := false;
      errorsReported := 0;
    }

    /** The `src` getter. */
    function Src(): Option<string>
      reads this
    {
      url
    }

    method SetOnError(present: bool)
      modifies this
      ensures hasOnError == present
      ensures url == old(url) && givenToSetter == old(givenToSetter) && errorsReported == old(errorsReported)
    {
      hasOnError := present;
    }

    /** `image.onloadByNative(encodedData)`: a data URL whose type follows the extension of
        `image.url` goes to the original setter. Undefined `image.url` makes `extname` throw. */
    method OnloadByNative(encoded: string) returns (threw: bool)
      modifies this
      ensures threw <==> url.None?
      ensures givenToSetter == old(givenToSetter) + (if threw then [] else [DataUrl(Extname(url.value), encoded)])
      ensures url == old(url) && hasOnError == old(hasOnError) && errorsReported == old(errorsReported)
    {
      if url.None? {
        return true;
      }
      threw := false;
      var ext := Extname(url.value);
      givenToSetter := givenToSetter + [DataUrl(ext, encoded)];
    }

    /** `image.onerrorByNative(err)`: reported only when `onerror` is set. */
    method OnerrorByNative()
      modifies this
      ensures errorsReported == old(errorsReported) + (if hasOnError then 1 else 0)
      ensures url == old(url) && givenToSetter == old(givenToSetter) && hasOnError == old(hasOnError)
    {
      if hasOnError {
        errorsReported := errorsReported + 1;
      }
    }

    /** The `src` setter. `""` changes nothing. Otherwise `image.url` becomes the URL; data
        URLs and URLs outside `/assets` go to the original setter as they are; asset URLs go
        to `loadNative(url, ..., "text")`. That call is asynchronous: the setter returns
        before any callback runs, so the original setter is not called here. `pending` holds
        the callbacks the load will make (none when it was not started); its file accesses
        are performed here. */
    method SetSrc(u: string, native: Native) returns (pending: seq<Callback>)
      modifies this, native.store, native.net
      ensures RouteImage(u) == Ignored ==> url == old(url) && unchanged(native.store, native.net)
      ensures RouteImage(u) != Ignored ==> url == Some(u) && Src() == Some(u)
      ensures RouteImage(u) == OriginalSetter ==> givenToSetter == old(givenToSetter) + [u] && unchanged(native.store, native.net)
      ensures RouteImage(u) != OriginalSetter ==> givenToSetter == old(givenToSetter)
      ensures RouteImage(u) == LoadNatively <==> pending != []
      ensures RouteImage(u) == LoadNatively ==>
        && native.store.files == native.FilesAfterLoad(old(native.store.files), u)
        && pending == native.LoadResult(old(native.store.files), u, "text")
        && pending[|pending| - 1] == OnLoad(Str(Encode(Lookup(native.store.files, LoadPath(u)).GetOr([]))))
        && native.net.fetched == old(native.net.fetched) + native.LoadFetches(old(native.store.files), u)
        && native.store.writes == old(native.store.writes) + native.LoadWrites(old(native.store.files), u)
      ensures hasOnError == old(hasOnError) && errorsReported == old(errorsReported)
    {
      pending := [];
      if u == "" {
        return;
      }
      url := Some(u);
      if DataImagePrefix <= u || !(AssetsPrefix <= u) {
        givenToSetter := givenToSetter + [u];
        return;
      }
      pending := native.LoadNative(u, "text");
    }

    /** The callbacks of one `loadNative` call run, in order: each `onError` reaches
        `onerrorByNative`, and the final `onLoad` reaches `onloadByNative`, which reads
        `image.url` as it is when the load completes. */
    method Deliver(pending: seq<Callback>) returns (threw: bool)
      requires |pending| >= 1 && pending[|pending| - 1].OnLoad? && pending[|pending| - 1].data.Str?
      requires forall i :: 0 <= i < |pending| - 1 ==> pending[i].OnError?
      modifies this
      ensures errorsReported == old(errorsReported) + (if hasOnError then |pending| - 1 else 0)
      ensures threw <==> url.None?
      ensures givenToSetter == old(givenToSetter) +
        (if threw then [] else [DataUrl(Extname(url.value), pending[|pending| - 1].data.s)])
      ensures url == old(url) && hasOnError == old(hasOnError)
    {
      var i := 0;
      while i < |pending| - 1
        invariant 0 <= i <= |pending| - 1
        invariant errorsReported == old(errorsReported) + (if hasOnError then i else 0)
        invariant url == old(url) && givenToSetter == old(givenToSetter) && hasOnError == old(hasOnError)
      {
        OnerrorByNative();
        i := i + 1;
      }
      threw := OnloadByNative(pending[|pending| - 1].data.s);
    }
  }

  /** Whether `Request.send` serves a URL through `loadNative` rather than the wrapped
      request: fonts, the asset map and `.m4a` audio go to the network like every URL
      outside `/assets`. */
  function Intercepts(url: string): (r: bool)
    ensures r <==> AssetsPrefix <= url && !("/assets/fonts" <= url) && !("/assets/asset-map" <= url) &&
                   !(".m4a" <= Extname(url))
  {
    if "/assets/fonts" <= url || "/assets/asset-map" <= url then false
    else if ".m4a" <= Extname(url) then false
    else AssetsPrefix <= url
  }

  /** Every URL the request proxy intercepts, the image proxy would load natively too. */
  lemma InterceptedIsNativeImage(url: string)
    requires Intercepts(url)
    ensures RouteImage(url) == LoadNatively
  {
    assert url[0] == '/';
  }

  /** `XMLHttpRequest.DONE` */
  const Done := 4

  /** What happens to the wrapped request's handlers, in order. */
  datatype Event = ReadyStateChangeHandler | LoadHandler | LoadEventDispatched | ErrorHandler

  /** The arguments of one `open` call of the wrapped request. */
  datatype OpenCall = OpenCall(httpMethod: string, url: string, async: Value, user: Value, password: Value)

  /** The values of the `XMLHttpRequestResponseType` enumeration. */
  const ResponseTypes: set<string> := {"", "arraybuffer", "blob", "document", "json", "text"}

  /** The wrapped `XMLHttpRequest`, reduced to what the proxy reads and calls. */
  class NativeRequest {
    var readyState: int
    var status: int
    var response: Value
    var responseText: Value
    var responseType: string
    /** The synchronous flag: set by an `open` whose `async` argument is falsy. */
    var synchronous: bool
    /** The send() flag: set by an accepted `send`, cleared by `open`. */
    var sendFlag: bool
    /** `open(method, url, async, user, password)` calls. */
    var openCalls: seq<OpenCall>
    /** `send(body)` calls that were accepted. */
    var sendCalls: seq<Value>
    var hasOnReadyStateChange: bool
    var hasOnLoad: bool
    var hasOnError: bool
    /** Handler invocations and dispatched events. */
    var fired: seq<Event>

    constructor ()
      ensures readyState == 0 && status == 0 && response == Str("") && responseText == Str("")
      ensures responseType == "" && !synchronous && !sendFlag && openCalls == [] && sendCalls == [] && fired == []
      ensures !hasOnReadyStateChange && !hasOnLoad && !hasOnError
    {
      readyState, status := 0, 0;
      response, responseText := Str(""), Str("");
      responseType := "";
      synchronous, sendFlag := false, false;
      openCalls, sendCalls, fired := [], [], [];
      hasOnReadyStateChange, hasOnLoad, hasOnError := false, false, false;
    }

    /** `open(method, url, async, user, password)`. All five arguments are given, so
        WebIDL converts `async` even when it is `undefined`, which makes the request
        synchronous. A synchronous `open` in a window throws an InvalidAccessError when a
        response type is already set, and then changes nothing. Otherwise the send() flag
        is cleared, the response becomes a network error (status 0; `response` is `""` for
        the text types and `null` for the others) and the request is OPENED (state 1);
        entering that state fires `readystatechange`. */
    method Open(m: string, url: string, async: Value, user: Value, password: Value) returns (threw: bool)
      modifies this
      ensures threw <==> !Truthy(async) && old(responseType) != ""
      ensures threw ==> unchanged(this)
      ensures !threw ==>
        && openCalls == old(openCalls) + [OpenCall(m, url, async, user, password)]
        && readyState == 1 && synchronous == !Truthy(async) && !sendFlag && status == 0
        && response == (if responseType == "" || responseType == "text" then Str("") else Null)
        && (responseType == "" || responseType == "text" ==> responseText == Str(""))
        && fired == old(fired) + (if old(readyState) != 1 && hasOnReadyStateChange then [ReadyStateChangeHandler] else [])
      ensures sendCalls == old(sendCalls) && responseType == old(responseType)
      ensures hasOnReadyStateChange == old(hasOnReadyStateChange) && hasOnLoad == old(hasOnLoad) && hasOnError == old(hasOnError)
    {
      if !Truthy(async) && responseType != "" {
        return true;
      }
      threw := false;
      openCalls := openCalls + [OpenCall(m, url, async, user, password)];
      synchronous := !Truthy(async);
      sendFlag := false;
      status := 0;
      response := if responseType == "" || responseType == "text" then Str("") else Null;
      if responseType == "" || responseType == "text" {
        responseText := Str("");
      }
      if readyState != 1 {
        readyState := 1;
        if hasOnReadyStateChange {
          fired := fired + [ReadyStateChangeHandler];
        }
      }
    }

    /** The `responseType` setter throws an InvalidStateError while the request is LOADING
        (3) or DONE (4), and an InvalidAccessError in a window when the request is
        synchronous. */
    predicate RejectsResponseType()
      reads this
    {
      readyState == 3 || readyState == 4 || synchronous
    }

    /** `responseType = t`. A string outside the enumeration is ignored by WebIDL without
        an error; a valid one is set unless the setter throws, in which case nothing
        changes. */
    method SetResponseType(t: string) returns (threw: bool)
      modifies this
      ensures threw == (t in ResponseTypes && old(RejectsResponseType()))
      ensures threw ==> unchanged(this)
      ensures responseType == (if t in ResponseTypes && !threw then t else old(responseType))
      ensures readyState == old(readyState) && synchronous == old(synchronous) && sendFlag == old(sendFlag)
      ensures openCalls == old(openCalls) && sendCalls == old(sendCalls) && fired == old(fired)
      ensures status == old(status) && response == old(response) && responseText == old(responseText)
      ensures hasOnReadyStateChange == old(hasOnReadyStateChange) && hasOnLoad == old(hasOnLoad) && hasOnError == old(hasOnError)
    {
      threw := t in ResponseTypes && RejectsResponseType();
      if t in ResponseTypes && !threw {
        responseType := t;
      }
    }

    /** `send` throws an InvalidStateError unless the request is OPENED and not already
        sent. */
    predicate RejectsSend()
      reads this
    {
      readyState != 1 || sendFlag
    }

    /** `send(body)`: refused as `RejectsSend` says, with no change; otherwise recorded,
        and the send() flag is set. */
    method Send(body: Value) returns (threw: bool)
      modifies this
      ensures threw == old(RejectsSend())
      ensures threw ==> unchanged(this)
      ensures !threw ==> sendCalls == old(sendCalls) + [body] && sendFlag
      ensures openCalls == old(openCalls) && responseType == old(responseType) && fired == old(fired)
      ensures readyState == old(readyState) && status == old(status) && response == old(response) && responseText == old(responseText)
      ensures synchronous == old(synchronous)
      ensures hasOnReadyStateChange == old(hasOnReadyStateChange) && hasOnLoad == old(hasOnLoad) && hasOnError == old(hasOnError)
    {
      threw := RejectsSend();
      if !threw {
        sendCalls := sendCalls + [body];
        sendFlag := true;
      }
    }

    /** Setting `onreadystatechange` (`present`: to a function). */
    method SetOnReadyStateChange(present: bool)
      modifies this
      ensures hasOnReadyStateChange == present
      ensures hasOnLoad == old(hasOnLoad) && hasOnError == old(hasOnError) && fired == old(fired)
      ensures openCalls == old(openCalls) && sendCalls == old(sendCalls) && responseType == old(responseType)
      ensures readyState == old(readyState) && status == old(status) && response == old(response) && responseText == old(responseText)
      ensures synchronous == old(synchronous) && sendFlag == old(sendFlag)
    {
      hasOnReadyStateChange := present;
    }

    /** Setting `onload` (`present`: to a function). */
    method SetOnLoad(present: bool)
      modifies this
      ensures hasOnLoad == present
      ensures hasOnReadyStateChange == old(hasOnReadyStateChange) && hasOnError == old(hasOnError) && fired == old(fired)
      ensures openCalls == old(openCalls) && sendCalls == old(sendCalls) && responseType == old(responseType)
      ensures readyState == old(readyState) && status == old(status) && response == old(response) && responseText == old(responseText)
      ensures synchronous == old(synchronous) && sendFlag == old(sendFlag)
    {
      hasOnLoad := present;
    }

    /** Setting `onerror` (`present`: to a function). */
    method SetOnError(present: bool)
      modifies this
      ensures hasOnError == present
      ensures hasOnReadyStateChange == old(hasOnReadyStateChange) && hasOnLoad == old(hasOnLoad) && fired == old(fired)
      ensures openCalls == old(openCalls) && sendCalls == old(sendCalls) && responseType == old(responseType)
      ensures readyState == old(readyState) && status == old(status) && response == old(response) && responseText == old(responseText)
      ensures synchronous == old(synchronous) && sendFlag == old(sendFlag)
    {
      hasOnError := present;
    }

    method Fire(e: Event)
      modifies this
      ensures fired == old(fired) + [e]
      ensures openCalls == old(openCalls) && sendCalls == old(sendCalls) && responseType == old(responseType)
      ensures readyState == old(readyState) && status == old(status) && response == old(response) && responseText == old(responseText)
      ensures synchronous == old(synchronous) && sendFlag == old(sendFlag)
      ensures hasOnReadyStateChange == old(hasOnReadyStateChange) && hasOnLoad == old(hasOnLoad) && hasOnError == old(hasOnError)
    {
      fired := fired + [e];
    }
  }

  /** How `send` ended. */
  datatype SendOutcome = Threw | Forwarded | Intercepted

  /** The `Request` class installed as `window.XMLHttpRequest`. */
  class Request {
    const request: NativeRequest
    /** `this.url`, set by `open`. */
    var url: Option<string>
    /** `_readyState`, `_status`, `_response`: set by `onloadByNative`, never cleared. */
    var readyStateOverride: Value
    var statusOverride: Value
    var responseOverride: Value

    constructor ()
      ensures fresh(request) && url.None?
      ensures readyStateOverride == Undefined && statusOverride == Undefined && responseOverride == Undefined
      ensures request.readyState == 0 && request.status == 0 && request.response == Str("") && request.responseText == Str("")
      ensures request.responseType == "" && !request.synchronous && !request.sendFlag
      ensures request.openCalls == [] && request.sendCalls == [] && request.fired == []
      ensures !request.hasOnReadyStateChange && !request.hasOnLoad && !request.hasOnError
      ensures ReadyState() == Num(0) && Status() == Num(0) && Response() == Str("") && ResponseText() == Str("")
    {
      request := new NativeRequest();
      url := None;
      readyStateOverride, statusOverride, responseOverride := Undefined, Undefined, Undefined;
    }

    /** The getters prefer a truthy override to the wrapped request's value: an override
        that is falsy (unset, `0`, an empty text) is as good as none. */
    function ReadyState(): (v: Value)
      reads this, request
      ensures Truthy(readyStateOverride) ==> v == readyStateOverride
      ensures !Truthy(readyStateOverride) ==> v == Num(request.readyState)
    {
      if Truthy(readyStateOverride) then readyStateOverride else Num(request.readyState)
    }

    function Status(): (v: Value)
      reads this, request
      ensures Truthy(statusOverride) ==> v == statusOverride
      ensures !Truthy(statusOverride) ==> v == Num(request.status)
    {
      if Truthy(statusOverride) then statusOverride else Num(request.status)
    }

    function Response(): (v: Value)
      reads this, request
      ensures Truthy(responseOverride) ==> v == responseOverride
      ensures !Truthy(responseOverride) ==> v == request.response
    {
      if Truthy(responseOverride) then responseOverride else request.response
    }

    /** Reads the same override as `Response`. */
    function ResponseText(): (v: Value)
      reads this, request
      ensures Truthy(responseOverride) ==> v == responseOverride && v == Response()
      ensures !Truthy(responseOverride) ==> v == request.responseText
    {
      if Truthy(responseOverride) then responseOverride else request.responseText
    }

    /** `open(method, url, async, user, password)`: remembers the URL, then forwards all
        five arguments (`undefined` for those the page left out); the URL is remembered
        even when the wrapped `open` throws. The overrides of an earlier load survive. */
    method Open(m: string, u: string, async: Value, user: Value, password: Value) returns (threw: bool)
      modifies this, request
      ensures url == Some(u)
      ensures threw <==> !Truthy(async) && old(request.responseType) != ""
      ensures threw ==> unchanged(request)
      ensures !threw ==>
        && request.openCalls == old(request.openCalls) + [OpenCall(m, u, async, user, password)]
        && request.readyState == 1 && request.synchronous == !Truthy(async) && !request.sendFlag && request.status == 0
        && request.response == (if request.responseType == "" || request.responseType == "text" then Str("") else Null)
        && (request.responseType == "" || request.responseType == "text" ==> request.responseText == Str(""))
        && request.fired == old(request.fired) +
             (if old(request.readyState) != 1 && request.hasOnReadyStateChange then [ReadyStateChangeHandler] else [])
      ensures readyStateOverride == old(readyStateOverride) && statusOverride == old(statusOverride) && responseOverride == old(responseOverride)
      ensures request.sendCalls == old(request.sendCalls) && request.responseType == old(request.responseType)
      ensures request.hasOnReadyStateChange == old(request.hasOnReadyStateChange)
      ensures request.hasOnLoad == old(request.hasOnLoad) && request.hasOnError == old(request.hasOnError)
    {
      url := Some(u);
      threw := request.Open(m, u, async, user, password);
    }

    /** The `responseType` setter, forwarded to the wrapped request, which ignores a value
        outside the enumeration and may throw. */
    method SetResponseType(t: string) returns (threw: bool)
      modifies request
      ensures threw == (t in ResponseTypes && old(request.RejectsResponseType()))
      ensures threw ==> unchanged(request)
      ensures request.responseType == (if t in ResponseTypes && !threw then t else old(request.responseType))
      ensures request.readyState == old(request.readyState) && request.status == old(request.status)
      ensures request.response == old(request.response) && request.responseText == old(request.responseText)
      ensures request.synchronous == old(request.synchronous) && request.sendFlag == old(request.sendFlag)
      ensures request.openCalls == old(request.openCalls) && request.sendCalls == old(request.sendCalls) && request.fired == old(request.fired)
      ensures request.hasOnReadyStateChange == old(request.hasOnReadyStateChange)
      ensures request.hasOnLoad == old(request.hasOnLoad) && request.hasOnError == old(request.hasOnError)
    {
      threw := request.SetResponseType(t);
    }

    /** The `onreadystatechange` setter, forwarded to the wrapped request. */
    method SetOnReadyStateChange(present: bool)
      modifies request
      ensures request.hasOnReadyStateChange == present
      ensures request.hasOnLoad == old(request.hasOnLoad) && request.hasOnError == old(request.hasOnError)
      ensures request.fired == old(request.fired) && request.responseType == old(request.responseType)
      ensures request.readyState == old(request.readyState) && request.sendCalls == old(request.sendCalls)
      ensures request.status == old(request.status) && request.response == old(request.response) && request.responseText == old(request.responseText)
      ensures request.synchronous == old(request.synchronous) && request.sendFlag == old(request.sendFlag) && request.openCalls == old(request.openCalls)
    {
      request.SetOnReadyStateChange(present);
    }

    /** The `onload` setter, forwarded to the wrapped request. */
    method SetOnLoad(present: bool)
      modifies request
      ensures request.hasOnLoad == present
      ensures request.hasOnReadyStateChange == old(request.hasOnReadyStateChange) && request.hasOnError == old(request.hasOnError)
      ensures request.fired == old(request.fired) && request.responseType == old(request.responseType)
      ensures request.readyState == old(request.readyState) && request.sendCalls == old(request.sendCalls)
      ensures request.status == old(request.status) && request.response == old(request.response) && request.responseText == old(request.responseText)
      ensures request.synchronous == old(request.synchronous) && request.sendFlag == old(request.sendFlag) && request.openCalls == old(request.openCalls)
    {
      request.SetOnLoad(present);
    }

    /** The `onerror` setter, forwarded to the wrapped request. */
    method SetOnError(present: bool)
      modifies request
      ensures request.hasOnError == present
      ensures request.hasOnReadyStateChange == old(request.hasOnReadyStateChange) && request.hasOnLoad == old(request.hasOnLoad)
      ensures request.fired == old(request.fired) && request.responseType == old(request.responseType)
      ensures request.readyState == old(request.readyState) && request.sendCalls == old(request.sendCalls)
      ensures request.status == old(request.status) && request.response == old(request.response) && request.responseText == old(request.responseText)
      ensures request.synchronous == old(request.synchronous) && request.sendFlag == old(request.sendFlag) && request.openCalls == old(request.openCalls)
    {
      request.SetOnError(present);
    }

    /** `onloadByNative(data)`: sets the response override as `ResponseOverride` says,
        `_readyState` to DONE and `_status` to 200, then calls `onreadystatechange` if set
        and `onload` if set, else dispatches a `load` event. When it throws, it throws
        before any change. */
    method OnloadByNative(data: Value, rua: bool) returns (threw: bool)
      modifies this, request
      ensures threw <==> ResponseOverride(url, request.responseType, rua, data).None?
      ensures threw ==> unchanged(this) && unchanged(request)
      ensures !threw ==>
        && responseOverride == ResponseOverride(url, request.responseType, rua, data).value
        && readyStateOverride == Num(Done) && statusOverride == Num(200)
        && ReadyState() == Num(Done) && Status() == Num(200)
        && Response() == (if Truthy(responseOverride) then responseOverride else request.response)
        && ResponseText() == (if Truthy(responseOverride) then responseOverride else request.responseText)
        && request.fired == old(request.fired) + old(LoadEvents())
      ensures url == old(url) && request.responseType == old(request.responseType) && request.sendCalls == old(request.sendCalls)
      ensures request.response == old(request.response) && request.responseText == old(request.responseText)
      ensures request.hasOnReadyStateChange == old(request.hasOnReadyStateChange)
      ensures request.hasOnLoad == old(request.hasOnLoad) && request.hasOnError == old(request.hasOnError)
    {
      if url.None? {
        return true;
      }
      var ext := Extname(url.value);
      if request.responseType == "text" {
        var decoded := DecodeResponse(data);
        if !decoded {
          return true;
        }
      } else if rua && ".m4a" <= ext {
        responseOverride := Str(url.value);
      } else {
        responseOverride := data;
      }
      threw := false;
      readyStateOverride := Num(Done);
      statusOverride := Num(200);
      NotifyLoad();
    }

    /** The `"text"` branch of `onloadByNative`: `atob` of the payload, kept as the UTF-8
        bytes `decodeURIComponent(escape(...))` reads; `atob` throws on anything else. */
    method DecodeResponse(data: Value) returns (decoded: bool)
      modifies this
      ensures decoded == (data.Str? && Decode(data.s).Some?)
      ensures decoded ==> responseOverride == Utf8Text(Decode(data.s).value)
      ensures !decoded ==> unchanged(this)
      ensures url == old(url) && readyStateOverride == old(readyStateOverride) && statusOverride == old(statusOverride)
    {
      decoded := data.Str? && Decode(data.s).Some?;
      if decoded {
        responseOverride := Utf8Text(Decode(data.s).value);
      }
    }

    /** What finishing a load fires: `onreadystatechange` if set, then `onload` if set,
        else a dispatched `load` event. */
    function LoadEvents(): (events: seq<Event>)
      reads request
      ensures 1 <= |events| <= 2 && events[|events| - 1] in {LoadHandler, LoadEventDispatched}
      ensures ReadyStateChangeHandler in events <==> request.hasOnReadyStateChange
    {
      (if request.hasOnReadyStateChange then [ReadyStateChangeHandler] else []) +
      [if request.hasOnLoad then LoadHandler else LoadEventDispatched]
    }

    method NotifyLoad()
      modifies request
      ensures request.fired == old(request.fired) + old(LoadEvents())
      ensures request.responseType == old(request.responseType) && request.sendCalls == old(request.sendCalls)
      ensures request.responseText == old(request.responseText)
      ensures request.response == old(request.response) && request.readyState == old(request.readyState) && request.status == old(request.status)
      ensures request.hasOnReadyStateChange == old(request.hasOnReadyStateChange)
      ensures request.hasOnLoad == old(request.hasOnLoad) && request.hasOnError == old(request.hasOnError)
    {
      if request.hasOnReadyStateChange {
        request.Fire(ReadyStateChangeHandler);
      }
      if request.hasOnLoad {
        request.Fire(LoadHandler);
      } else {
        request.Fire(LoadEventDispatched);
      }
    }

    /** `onerrorByNative(err)`: calls `onerror` when set. */
    method OnerrorByNative()
      modifies request
      ensures request.fired == old(request.fired) + (if request.hasOnError then [ErrorHandler] else [])
      ensures request.responseType == old(request.responseType) && request.sendCalls == old(request.sendCalls) && request.response == old(request.response)
      ensures request.responseText == old(request.responseText)
      ensures request.hasOnReadyStateChange == old(request.hasOnReadyStateChange)
      ensures request.hasOnLoad == old(request.hasOnLoad) && request.hasOnError == old(request.hasOnError)
    {
      if request.hasOnError {
        request.Fire(ErrorHandler);
      }
    }

    /** `send(body)`. Before `open` the URL is undefined and `startsWith` throws. A URL the
        proxy does not intercept is sent by the wrapped request. An intercepted one is never
        sent: an empty response type becomes `"text"` (an assignment that throws on a
        synchronous request), and `loadNative(url, ..., responseType)` is started. That call
        is asynchronous: `send` returns before any callback runs, and `pending` holds the
        callbacks the load will make (none when it was not started); its file accesses are
        performed here. */
    method Send(body: Value, native: Native) returns (outcome: SendOutcome, pending: seq<Callback>)
      modifies request, native.store, native.net
      ensures outcome == (if url.None? then Threw
                          else if !Intercepts(url.value) then (if old(request.RejectsSend()) then Threw else Forwarded)
                          else if old(request.responseType) == "" && old(request.RejectsResponseType()) then Threw
                          else Intercepted)
      ensures outcome == Threw ==> unchanged(request) && unchanged(native.store, native.net)
      ensures outcome == Forwarded ==>
        && request.sendCalls == old(request.sendCalls) + [body] && request.sendFlag
        && request.responseType == old(request.responseType)
        && unchanged(native.store, native.net)
      ensures outcome == Intercepted <==> pending != []
      ensures outcome == Intercepted ==>
        && request.sendCalls == old(request.sendCalls) && request.sendFlag == old(request.sendFlag)
        && request.responseType == (if old(request.responseType) == "" then "text" else old(request.responseType))
        && native.store.files == native.FilesAfterLoad(old(native.store.files), url.value)
        && pending == native.LoadResult(old(native.store.files), url.value, request.responseType)
        && native.net.fetched == old(native.net.fetched) + native.LoadFetches(old(native.store.files), url.value)
        && native.store.writes == old(native.store.writes) + native.LoadWrites(old(native.store.files), url.value)
      ensures request.fired == old(request.fired) && request.response == old(request.response) && request.responseText == old(request.responseText)
      ensures request.readyState == old(request.readyState) && request.status == old(request.status)
      ensures request.synchronous == old(request.synchronous) && request.openCalls == old(request.openCalls)
      ensures request.hasOnReadyStateChange == old(request.hasOnReadyStateChange)
      ensures request.hasOnLoad == old(request.hasOnLoad) && request.hasOnError == old(request.hasOnError)
    {
      pending := [];
      if url.None? {
        return Threw, [];
      }
      var u := url.value;
      if "/assets/fonts" <= u || "/assets/asset-map" <= u {
        outcome := Forward(body);
        return;
      }
      if ".m4a" <= Extname(u) {
        outcome := Forward(body);
        return;
      }
      if !(AssetsPrefix <= u) {
        outcome := Forward(body);
        return;
      }
      var threw;
      threw, pending := StartLoad(native);
      outcome := if threw then Threw else Intercepted;
    }

    /** A `send` the proxy does not intercept: the wrapped request's `send`, whose
        InvalidStateError passes through. */
    method Forward(body: Value) returns (outcome: SendOutcome)
      modifies request
      ensures outcome == (if old(request.RejectsSend()) then Threw else Forwarded)
      ensures outcome == Threw ==> unchanged(request)
      ensures outcome == Forwarded ==> request.sendCalls == old(request.sendCalls) + [body] && request.sendFlag
      ensures request.responseType == old(request.responseType) && request.fired == old(request.fired)
      ensures request.response == old(request.response) && request.responseText == old(request.responseText)
      ensures request.readyState == old(request.readyState) && request.status == old(request.status)
      ensures request.synchronous == old(request.synchronous) && request.openCalls == old(request.openCalls)
      ensures request.hasOnReadyStateChange == old(request.hasOnReadyStateChange)
      ensures request.hasOnLoad == old(request.hasOnLoad) && request.hasOnError == old(request.hasOnError)
    {
      var threw := request.Send(body);
      outcome := if threw then Threw else Forwarded;
    }

    /** The intercepted branch of `send`. */
    method StartLoad(native: Native) returns (threw: bool, pending: seq<Callback>)
      requires url.Some?
      modifies request, native.store, native.net
      ensures threw <==> old(request.responseType) == "" && old(request.RejectsResponseType())
      ensures threw ==> unchanged(request) && unchanged(native.store, native.net) && pending == []
      ensures !threw ==>
        && request.responseType == (if old(request.responseType) == "" then "text" else old(request.responseType))
        && native.store.files == native.FilesAfterLoad(old(native.store.files), url.value)
        && pending == native.LoadResult(old(native.store.files), url.value, request.responseType)
        && native.net.fetched == old(native.net.fetched) + native.LoadFetches(old(native.store.files), url.value)
        && native.store.writes == old(native.store.writes) + native.LoadWrites(old(native.store.files), url.value)
      ensures request.sendCalls == old(request.sendCalls) && request.fired == old(request.fired)
      ensures request.response == old(request.response) && request.responseText == old(request.responseText)
      ensures request.readyState == old(request.readyState) && request.status == old(request.status)
      ensures request.synchronous == old(request.synchronous) && request.openCalls == old(request.openCalls)
      ensures request.sendFlag == old(request.sendFlag)
      ensures request.hasOnReadyStateChange == old(request.hasOnReadyStateChange)
      ensures request.hasOnLoad == old(request.hasOnLoad) && request.hasOnError == old(request.hasOnError)
    {
      pending := [];
      threw := false;
      if request.responseType == "" {
        threw := request.SetResponseType("text");
        if threw {
          return;
        }
      }
      pending := native.LoadNative(url.value, request.responseType);
    }

    /** The callbacks of one `loadNative` call run, in order: each `onError` reaches
        `onerrorByNative`, and the final `onLoad` reaches `onloadByNative`, which reads
        `this.url` and the response type as they are when the load completes. */
    method Deliver(pending: seq<Callback>, rua: bool) returns (threw: bool)
      requires |pending| >= 1 && pending[|pending| - 1].OnLoad?
      requires forall i :: 0 <= i < |pending| - 1 ==> pending[i].OnError?
      modifies this, request
      ensures threw <==> ResponseOverride(url, request.responseType, rua, pending[|pending| - 1].data).None?
      ensures request.fired == old(request.fired) + ErrorEvents(request.hasOnError, |pending| - 1) +
                               (if threw then [] else old(LoadEvents()))
      ensures !threw ==>
        && responseOverride == ResponseOverride(url, request.responseType, rua, pending[|pending| - 1].data).value
        && ReadyState() == Num(Done) && Status() == Num(200)
        && Response() == (if Truthy(responseOverride) then responseOverride else request.response)
      ensures threw ==> readyStateOverride == old(readyStateOverride) && statusOverride == old(statusOverride) &&
                        responseOverride == old(responseOverride)
      ensures url == old(url) && request.responseType == old(request.responseType) && request.sendCalls == old(request.sendCalls)
      ensures request.response == old(request.response) && request.responseText == old(request.responseText)
      ensures request.hasOnReadyStateChange == old(request.hasOnReadyStateChange)
      ensures request.hasOnLoad == old(request.hasOnLoad) && request.hasOnError == old(request.hasOnError)
    {
      var i := 0;
      while i < |pending| - 1
        invariant 0 <= i <= |pending| - 1
        invariant request.fired == old(request.fired) + ErrorEvents(request.hasOnError, i)
        invariant unchanged(this)
        invariant request.responseType == old(request.responseType) && request.sendCalls == old(request.sendCalls)
        invariant request.response == old(request.response) && request.responseText == old(request.responseText)
        invariant request.hasOnReadyStateChange == old(request.hasOnReadyStateChange)
        invariant request.hasOnLoad == old(request.hasOnLoad) && request.hasOnError == old(request.hasOnError)
      {
        OnerrorByNative();
        i := i + 1;
      }
      threw := OnloadByNative(pending[|pending| - 1].data, rua);
    }
  }

  /** What `n` calls of `onerrorByNative` fire: the `onerror` handler each time, if set. */
  function ErrorEvents(hasOnError: bool, n: nat): (events: seq<Event>)
    ensures |events| == (if hasOnError then n else 0)
    ensures forall e :: e in events ==> e == ErrorHandler
  {
    if !hasOnError || n == 0 then [] else ErrorEvents(hasOnError, n - 1) + [ErrorHandler]
  }

  /** The `_response` value `onloadByNative(data)` sets, or `None` when it throws first:
      `extname` of an undefined URL throws, and for the `"text"` type so does `atob` on
      anything but a Base64 text. The decoded text is kept as the octets that
      `decodeURIComponent(escape(...))` reads as UTF-8; the `.m4a` branch under `window.rua`
      keeps the URL; any other type keeps the data. */
  function ResponseOverride(url: Option<string>, responseType: string, rua: bool, data: Value): Option<Value> {
    if url.None? then None
    else if responseType == "text" then
      if data.Str? && Decode(data.s).Some? then Some(Utf8Text(Decode(data.s).value)) else None
    else if rua && ".m4a" <= Extname(url.value) then Some(Str(url.value))
    else Some(data)
  }

  /** What an intercepted request ends with when its load completes without `url` or the
      response type having changed: `onloadByNative` does not throw, the override is the
      file's content (for `"text"` the octets the Base64 payload decodes to: the `.m4a`
      branch is out of reach, since `send` never intercepts `.m4a`), and the getters show
      it exactly when the file was read and, for `"text"`, is not empty, since an empty
      string is falsy. */
  lemma ServedResponse(url: string, responseType: string, rua: bool, read: Option<seq<Byte>>)
    requires Intercepts(url)
    ensures var r := ResponseOverride(Some(url), responseType, rua, Payload(read, responseType));
      && r == Some(if responseType == "text" then Utf8Text(read.GetOr([]))
                   else if read.Some? then Buffer(read.value) else Undefined)
      && (Truthy(r.value) <==> read.Some? && (responseType != "text" || read.value != []))
  {
    if responseType == "text" {
      TextPayloadDecodes(read.GetOr([]));
    }
  }

  /** A page's usual sequence: `new XMLHttpRequest()`, an asynchronous `open`, an `onload`
      handler, then `send`. The URLs `send` intercepts are served by `loadNative` and never
      reach the wrapped request; every other URL is sent by it, without an error. */
  method OpenThenSend(u: string, native: Native) returns (outcome: SendOutcome, served: bool)
    modifies native.store, native.net
    ensures outcome == (if Intercepts(u) then Intercepted else Forwarded)
    ensures served <==> Intercepts(u)
  {
    var r := new Request();
    var threw := r.Open("GET", u, Num(1), Undefined, Undefined);
    r.SetOnLoad(true);
    var pending;
    outcome, pending := r.Send(Undefined, native);
    served := r.request.sendCalls == [];
  }
}
