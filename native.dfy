/** The `native` object of lib/preload.js (installed as `window.androidNative`): single-asset
    download into the cache, the batch download of a manifest, cancellation, and the loader
    the proxies call. The file system and the network are the collaborators of module Io. */
module Native {
  import opened Wrappers
  import opened Base64
  import opened Values
  import opened Io
  import opened CachePaths
  import Scheduler

  /** `_arrayBufferToBase64`: one character per octet (`String.fromCharCode`), then `btoa`.
      The result is the Base64 encoding of the octets, 4 characters per started group of 3,
      and decodes back to them. */
  method ArrayBufferToBase64(buffer: seq<Byte>) returns (encoded: string)
    ensures encoded == Encode(buffer)
    ensures |encoded| == 4 * ((|buffer| + 2) / 3)
    ensures Decode(encoded) == Some(buffer)
  {
    var binary := "";
    var i := 0;
    while i < |buffer|
      invariant 0 <= i <= |buffer|
      invariant |binary| == i
      invariant forall k :: 0 <= k < i ==> binary[k] as int == buffer[k]
    {
      binary := binary + [buffer[i] as char];
      i := i + 1;
    }
    assert IsBinaryString(binary);
    assert Octets(binary) == buffer;
    var r := Btoa(binary);
    encoded := r.value;
    EncodeLength(buffer);
    DecodeEncode(buffer);
  }

  /** Why `loadNative` called `onError`. */
  datatype Failure = DownloadFailed | ReadFailed

  /** A callback `loadNative` invokes, in order. */
  datatype Callback = OnLoad(data: Value) | OnError(cause: Failure)

  /** A manifest entry: an asset path and its version suffix (`?v=...`). */
  datatype Entry = Entry(file: string, tag: string)

  /** The parsed `assets` argument of `downloadAssets`; entries in the object's key order.
      Its `version` is read by the source and never used. */
  datatype Manifest = Manifest(version: string, assets: seq<Entry>)

  /** `file + version`: the URL downloaded for an entry. */
  function AssetUrl(e: Entry): Url {
    e.file + e.tag
  }

  /** What `loadNative` hands to `onLoad`, given what `readFile` produced: for `"text"` the
      Base64 of the content (of nothing when the read failed), otherwise the content itself
      or `undefined`. */
  function Payload(read: Option<seq<Byte>>, responseType: string): Value {
    if responseType == "text" then Str(Encode(read.GetOr([])))
    else if read.Some? then Buffer(read.value)
    else Undefined
  }

  /** A text payload carries exactly the file's octets: decoding it gives them back. */
  lemma TextPayloadDecodes(content: seq<Byte>)
    ensures Payload(Some(content), "text").Str?
    ensures Decode(Payload(Some(content), "text").s) == Some(content)
  {
    DecodeEncode(content);
  }

  /** The callbacks of one `loadNative` call: `onError` for a failed download, `onError` for
      a failed read, and then, in every case, `onLoad` (the source does not return after
      reporting an error). */
  function LoadCallbacks(downloadFailed: bool, read: Option<seq<Byte>>, responseType: string): (cbs: seq<Callback>)
    ensures |cbs| >= 1 && cbs[|cbs| - 1] == OnLoad(Payload(read, responseType))
    ensures forall i :: 0 <= i < |cbs| - 1 ==> cbs[i].OnError?
    ensures (OnError(DownloadFailed) in cbs) == downloadFailed
    ensures (OnError(ReadFailed) in cbs) == read.None?
    ensures |cbs| == 1 + (if downloadFailed then 1 else 0) + (if read.None? then 1 else 0)
  {
    (if downloadFailed then [OnError(DownloadFailed)] else []) +
    (if read.None? then [OnError(ReadFailed)] else []) +
    [OnLoad(Payload(read, responseType))]
  }

  /** The URLs downloaded for the entries, in order. */
  function AssetUrls(entries: seq<Entry>): (urls: seq<Url>)
    ensures |urls| == |entries| && forall k :: 0 <= k < |entries| ==> urls[k] == AssetUrl(entries[k])
  {
    seq(|entries|, k requires 0 <= k < |entries| => AssetUrl(entries[k]))
  }

  /** The effect of downloads run one after another. */
  datatype Downloads = Downloads(files: map<Path, seq<Byte>>, outcomes: seq<bool>, fetched: seq<Url>, writes: seq<Path>)

  function Lookup(files: map<Path, seq<Byte>>, path: Path): Option<seq<Byte>> {
    if path in files then Some(files[path]) else None
  }

  class Native {
    /** `config.native.cache_folder` (`None` for null or undefined). */
    const cacheFolder: Option<string>
    /** The module-level `downloadCancel` flag. */
    var downloadCancel: bool
    const store: FileStore
    const net: Network

    /** The flag starts set when `config.native.skip_download` is truthy. */
    constructor (cacheFolder: Option<string>, skipDownload: bool, store: FileStore, net: Network)
      ensures this.cacheFolder == cacheFolder && downloadCancel == skipDownload
      ensures this.store == store && this.net == net
    {
      this.cacheFolder := cacheFolder;
      this.store := store;
      this.net := net;
      downloadCancel := skipDownload;
    }

    /** `downloadAsset(url)` succeeds: the target was present, or it was fetched and written. */
    predicate DownloadSucceeds(files: map<Path, seq<Byte>>, url: Url) {
      var path := DownloadPath(cacheFolder, url);
      path in files || (net.respond(url).Some? && store.canWrite(path))
    }

    /** The files after `downloadAsset(url)`. */
    function AfterDownload(files: map<Path, seq<Byte>>, url: Url): map<Path, seq<Byte>> {
      var path := DownloadPath(cacheFolder, url);
      if path in files then files
      else match net.respond(url)
        case None => files
        case Some(body) => if store.canWrite(path) then files[path := body] else files
    }

    /** `downloadCancel()` */
    method DownloadCancel()
      modifies this
      ensures downloadCancel
    {
      downloadCancel := true;
    }

    /** `downloadAsset(url)`: probe the cache path; when absent, fetch the URL once and write
        the body there once. A present path causes no fetch and no write. */
    method DownloadAsset(url: Url) returns (ok: bool)
      modifies store, net
      ensures ok == DownloadSucceeds(old(store.files), url)
      ensures store.files == AfterDownload(old(store.files), url)
      ensures var path := DownloadPath(cacheFolder, url);
        if path in old(store.files) then
          net.fetched == old(net.fetched) && store.writes == old(store.writes)
        else
          && net.fetched == old(net.fetched) + [url]
          && store.writes == old(store.writes) + (if net.respond(url).Some? then [path] else [])
          && (ok ==> path in store.files && store.files[path] == net.respond(url).value)
    {
      var path := DownloadPath(cacheFolder, url);
      if store.Exists(path) {
        ok := true;
        return;
      }
      var body := net.Fetch(url);
      if body.None? {
        ok := false;
        return;
      }
      ok := store.WriteFile(path, body.value);
    }

    /** The files after `loadNative(url, ...)`: unchanged when the load path is present,
        otherwise as `downloadAsset(url)` leaves them. */
    function FilesAfterLoad(files: map<Path, seq<Byte>>, url: Url): map<Path, seq<Byte>> {
      if LoadPath(url) in files then files else AfterDownload(files, url)
    }

    /** The callbacks `loadNative(url, onLoad, onError, type)` makes, starting from `files`:
        an error for a download it started and that failed, an error when the load path
        cannot be read afterwards, then `onLoad` with what was read. */
    function LoadResult(files: map<Path, seq<Byte>>, url: Url, responseType: string): seq<Callback> {
      LoadCallbacks(LoadPath(url) !in files && !DownloadSucceeds(files, url),
                    Lookup(FilesAfterLoad(files, url), LoadPath(url)), responseType)
    }

    /** The URLs `loadNative(url, ...)` fetches: `url`, unless the load path or the download
        path is present. */
    function LoadFetches(files: map<Path, seq<Byte>>, url: Url): (r: seq<Url>)
      ensures r == [] || r == [url]
      ensures LoadPath(url) in files ==> r == []
    {
      if LoadPath(url) in files || DownloadPath(cacheFolder, url) in files then [] else [url]
    }

    /** The paths `loadNative(url, ...)` writes: the download path, when it fetched `url`
        and got a body. */
    function LoadWrites(files: map<Path, seq<Byte>>, url: Url): (r: seq<Path>)
      ensures r == [] || r == [DownloadPath(cacheFolder, url)]
      ensures r != [] ==> LoadFetches(files, url) == [url]
    {
      if LoadFetches(files, url) == [] || net.respond(url).None? then [] else [DownloadPath(cacheFolder, url)]
    }

    /** `loadNative(url, onLoad, onError, type)`: probe the load path; when absent, download
        (into the download path); then read the load path back in every case, and report.
        The callbacks are returned in the order they are made. */
    method LoadNative(url: Url, responseType: string) returns (callbacks: seq<Callback>)
      modifies store, net
      ensures store.files == FilesAfterLoad(old(store.files), url)
      ensures callbacks == LoadResult(old(store.files), url, responseType)
      ensures net.fetched == old(net.fetched) + LoadFetches(old(store.files), url)
      ensures store.writes == old(store.writes) + LoadWrites(old(store.files), url)
    {
      var path := LoadPath(url);
      var downloadFailed := false;
      if !store.Exists(path) {
        var ok := DownloadAsset(url);
        downloadFailed := !ok;
      }
      var read := store.ReadFile(path);
      var data := if read.Some? then Buffer(read.value) else Undefined;
      if responseType == "text" {
        var encoded := ArrayBufferToBase64(read.GetOr([]));
        data := Str(encoded);
      }
      callbacks := [];
      if downloadFailed {
        callbacks := callbacks + [OnError(DownloadFailed)];
      }
      if read.None? {
        callbacks := callbacks + [OnError(ReadFailed)];
      }
      callbacks := callbacks + [OnLoad(data)];
    }

    /** A cached asset is delivered as it is, with no error, no fetch, no write and no
        change to the files. */
    lemma LoadCached(files: map<Path, seq<Byte>>, url: Url, responseType: string)
      requires LoadPath(url) in files
      ensures FilesAfterLoad(files, url) == files
      ensures LoadFetches(files, url) == [] && LoadWrites(files, url) == []
      ensures LoadResult(files, url, responseType) == [OnLoad(Payload(Some(files[LoadPath(url)]), responseType))]
    {
    }

    /** Without a cache folder, a missing asset is fetched once, written once where it is
        read back, and its content delivered with no error. */
    lemma LoadMissWithDefaultFolder(files: map<Path, seq<Byte>>, url: Url, responseType: string)
      requires cacheFolder.None? && AssetsPrefix <= url && LoadPath(url) !in files
      requires net.respond(url).Some? && store.canWrite(LoadPath(url))
      ensures FilesAfterLoad(files, url) == files[LoadPath(url) := net.respond(url).value]
      ensures LoadFetches(files, url) == [url] && LoadWrites(files, url) == [LoadPath(url)]
      ensures LoadResult(files, url, responseType) == [OnLoad(Payload(Some(net.respond(url).value), responseType))]
    {
      DefaultFolderMatchesLoadPath(url);
    }

    /** With a cache folder whose expansion is not `assets`, a missing versioned asset is
        written where `loadNative` does not read it: the read fails and `onLoad` gets
        nothing, even though the download succeeded. Stated for canonical paths, which on a
        case-sensitive POSIX file system are different files when they are different
        strings. */
    lemma LoadMissWithOtherFolder(files: map<Path, seq<Byte>>, base: string, tag: string, responseType: string)
      requires cacheFolder.Some? && AssetsPrefix <= base
      requires FolderText(cacheFolder, base + VersionMarker + tag) != DefaultCacheFolder
      requires Free(FolderText(cacheFolder, base + VersionMarker + tag) + base[|AssetsPrefix|..], VersionMarker)
      requires Free(DefaultCacheFolder + base[|AssetsPrefix|..], VersionMarker)
      requires Canonical(DownloadPath(cacheFolder, base + VersionMarker + tag)) && Canonical(LoadPath(base + VersionMarker + tag))
      requires LoadPath(base + VersionMarker + tag) !in files
      ensures LoadResult(files, base + VersionMarker + tag, responseType) ==
        (if DownloadSucceeds(files, base + VersionMarker + tag) then [] else [OnError(DownloadFailed)]) +
        [OnError(ReadFailed), OnLoad(Payload(None, responseType))]
    {
      CacheFolderIgnoredByLoad(cacheFolder.value, base, tag);
    }

    /** What running `downloadAsset` on `urls`, one after another, does to `files`: the
        files afterwards, the outcome of each download, and the URLs fetched and paths
        written, in order. A URL is fetched only when its path is absent at its turn. */
    function RunDownloads(files: map<Path, seq<Byte>>, urls: seq<Url>): (d: Downloads)
      ensures |d.outcomes| == |urls|
      decreases |urls|
    {
      if urls == [] then Downloads(files, [], [], [])
      else
        var d := RunDownloads(files, urls[..|urls| - 1]);
        var url := urls[|urls| - 1];
        var path := DownloadPath(cacheFolder, url);
        Downloads(AfterDownload(d.files, url), d.outcomes + [DownloadSucceeds(d.files, url)],
                  d.fetched + (if path in d.files then [] else [url]),
                  d.writes + (if path in d.files || net.respond(url).None? then [] else [path]))
    }

    /** The store and the network are where `RunDownloads` from `files0` (and logs `fetched0`,
        `writes0`) says they are after the downloads of `urls` with outcomes `results`. */
    predicate DownloadsDone(files0: map<Path, seq<Byte>>, fetched0: seq<Url>, writes0: seq<Path>, urls: seq<Url>, results: seq<bool>)
      reads store, net
    {
      var d := RunDownloads(files0, urls);
      store.files == d.files && results == d.outcomes &&
      net.fetched == fetched0 + d.fetched && store.writes == writes0 + d.writes
    }

    /** When every URL answers and every download path can be written, all downloads
        succeed, each URL's path holds a file afterwards, and nothing present is lost. */
    lemma {:induction false} AllDownloadsSucceed(files: map<Path, seq<Byte>>, urls: seq<Url>)
      requires forall u | u in urls :: net.respond(u).Some? && store.canWrite(DownloadPath(cacheFolder, u))
      ensures false !in RunDownloads(files, urls).outcomes
      ensures forall u | u in urls :: DownloadPath(cacheFolder, u) in RunDownloads(files, urls).files
      ensures files.Keys <= RunDownloads(files, urls).files.Keys
      decreases |urls|
    {
      if urls != [] {
        var init := urls[..|urls| - 1];
        assert forall u | u in init :: u in urls;
        AllDownloadsSucceed(files, init);
        assert urls == init + [urls[|urls| - 1]];
      }
    }

    /** Downloads whose paths are all present change nothing: no fetch, no write, and every
        outcome is a success. A second run over the same manifest costs no network access. */
    lemma {:induction false} CachedDownloads(files: map<Path, seq<Byte>>, urls: seq<Url>)
      requires forall u | u in urls :: DownloadPath(cacheFolder, u) in files
      ensures RunDownloads(files, urls) == Downloads(files, seq(|urls|, _ => true), [], [])
      decreases |urls|
    {
      if urls != [] {
        var init := urls[..|urls| - 1];
        assert forall u | u in init :: u in urls;
        CachedDownloads(files, init);
        assert seq(|init|, _ => true) + [true] == seq(|urls|, _ => true);
      }
    }

    /** `group.push(this.downloadAsset(file + version))` for entry `i`: the download is run to
        completion here, and the store and the network move on by one step of
        `RunDownloads`. */
    method DownloadEntry(entries: seq<Entry>, i: nat, ghost files0: map<Path, seq<Byte>>, ghost fetched0: seq<Url>,
                         ghost writes0: seq<Path>, ghost results: seq<bool>) returns (ok: bool)
      requires i < |entries|
      requires DownloadsDone(files0, fetched0, writes0, AssetUrls(entries[..i]), results)
      modifies store, net
      ensures ok == DownloadSucceeds(old(store.files), AssetUrl(entries[i]))
      ensures store.files == AfterDownload(old(store.files), AssetUrl(entries[i]))
      ensures DownloadsDone(files0, fetched0, writes0, AssetUrls(entries[..i + 1]), results + [ok])
    {
      var url := AssetUrl(entries[i]);
      ghost var urls := AssetUrls(entries[..i]);
      assert AssetUrls(entries[..i + 1]) == urls + [url];
      assert (urls + [url])[..|urls|] == urls;
      ok := DownloadAsset(url);
    }

    /** The outcome of one started download joins the current group; a group of ten is
        awaited (and `downloadCancel()` may be called meanwhile or from the report that
        follows): when all its downloads succeeded the counter advances and progress is
        reported, otherwise `onError` is reported and the run fails. */
    method PushOutcome(total: nat, cancelAt: Option<nat>, now: nat, group: seq<bool>, reports: seq<Scheduler.Report>, ok: bool)
      returns (now': nat, group': seq<bool>, reports': seq<Scheduler.Report>, failed: bool)
      requires total > 0 && !downloadCancel
      modifies this
      ensures Scheduler.State(now', group', downloadCancel, failed, reports') ==
              Scheduler.Step(Scheduler.State(now, group, false, false, reports), total, cancelAt, ok)
    {
      now', group', reports', failed := now, group + [ok], reports, false;
      if |group'| % Scheduler.GroupSize == 0 {
        if cancelAt == Some(now / Scheduler.GroupSize) {
          DownloadCancel();
        }
        if false !in group' {
          now' := now + Scheduler.GroupSize;
          reports' := reports + [Scheduler.Progress(Scheduler.Percent(now', total))];
          group' := [];
        } else {
          reports' := reports + [Scheduler.Error];
          failed := true;
        }
      }
    }

    /** `downloadAssets(manifest)`: one download per entry in order while the flag is clear,
        groups of ten awaited as a whole, reports as module Scheduler describes them.
        `cancelAt` says during which group's await `downloadCancel()` is called, if ever.
        `results` are the outcomes of the downloads started, which run one after another
        as `RunDownloads` describes: only the started entries are fetched and written, and
        nothing else (no version file) is written. */
    method DownloadAssets(manifest: Manifest, cancelAt: Option<nat>) returns (reports: seq<Scheduler.Report>, results: seq<bool>)
      modifies this, store, net
      ensures Scheduler.Scheduled(|manifest.assets|, old(downloadCancel), cancelAt, results)
      ensures Scheduler.Finished(|manifest.assets|, old(downloadCancel), cancelAt, results)
      ensures reports == Scheduler.Reports(Scheduler.Replay(|manifest.assets|, old(downloadCancel), cancelAt, results))
      ensures downloadCancel == Scheduler.Replay(|manifest.assets|, old(downloadCancel), cancelAt, results).cancelled
      ensures var d := RunDownloads(old(store.files), AssetUrls(manifest.assets[..|results|]));
        && results == d.outcomes && store.files == d.files
        && net.fetched == old(net.fetched) + d.fetched && store.writes == old(store.writes) + d.writes
    {
      var entries := manifest.assets;
      var total := |entries|;
      ghost var cancelled := downloadCancel;
      ghost var files0, fetched0, writes0 := store.files, net.fetched, store.writes;
      var now: nat := 0;
      var group: seq<bool> := [];
      reports, results := [], [];
      var i := 0;
      var failed := false;
      while i < total && !downloadCancel && !failed
        invariant 0 <= i <= total && |results| == i
        invariant Scheduler.Scheduled(total, cancelled, cancelAt, results)
        invariant Scheduler.Replay(total, cancelled, cancelAt, results) == Scheduler.State(now, group, downloadCancel, failed, reports)
        invariant DownloadsDone(files0, fetched0, writes0, AssetUrls(entries[..i]), results)
      {
        var ok := DownloadEntry(entries, i, files0, fetched0, writes0, results);
        Scheduler.ScheduledExtend(total, cancelled, cancelAt, results, ok);
        results := results + [ok];
        now, group, reports, failed := PushOutcome(total, cancelAt, now, group, reports, ok);
        i := i + 1;
      }
      if !failed {
        reports := reports + [Scheduler.Complete];
      }
    }
  }
}
