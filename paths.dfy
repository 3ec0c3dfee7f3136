/** How an asset URL becomes a path of the local cache (lib/preload.js, `downloadAsset` and
    `loadNative`), and Node's `path.extname`, which the proxies use to classify URLs.
    Paths are kept relative: both callers resolve them against the parent of the
    application directory, which is the same fixed prefix for every path. */
module CachePaths {
  import opened Wrappers
  import opened Strings

  /** The URL prefix of the asset namespace. */
  const AssetsPrefix := "/assets"
  /** The query marker that introduces an asset's version tag. */
  const VersionMarker := "?v="
  /** The cache folder used when `config.native.cache_folder` is null or undefined. */
  const DefaultCacheFolder := "assets"

  /** `config.native.cache_folder ?? "assets"`. */
  function CacheFolder(cacheFolder: Option<string>): string {
    cacheFolder.GetOr(DefaultCacheFolder)
  }

  /** The path `downloadAsset` probes and writes: the first `/assets` of the URL replaced by
      the cache folder, then the first `?v=` replaced by `.`. */
  function DownloadPath(cacheFolder: Option<string>, url: string): string {
    Replace(Replace(url, AssetsPrefix, CacheFolder(cacheFolder)), VersionMarker, ".")
  }

  /** `url.substr(1)`: the URL without its first character. */
  function DropFirst(url: string): string {
    if |url| == 0 then url else url[1..]
  }

  /** The path `loadNative` probes and reads: the URL without its first character, then the
      first `?v=` replaced by `.`. The configured cache folder plays no part. */
  function LoadPath(url: string): string {
    Replace(DropFirst(url), VersionMarker, ".")
  }

  /** `marker` does not occur anywhere in `s`. */
  predicate Free(s: string, marker: string) {
    forall j: nat | j < |s| :: !Occurs(s, marker, j)
  }

  /** The text that takes the place of `/assets` in an asset URL: the cache folder with
      its `$` patterns expanded against that match, which sits at the very start of the
      URL (nothing before it, the rest of the URL after it). */
  function FolderText(cacheFolder: Option<string>, url: string): string
    requires AssetsPrefix <= url
  {
    Substitute(CacheFolder(cacheFolder), AssetsPrefix, "", url[|AssetsPrefix|..])
  }

  /** `p` is a relative path that POSIX `path.resolve` keeps as written, so that on a
      case-sensitive POSIX file system two such paths name the same file exactly when they
      are equal: it is not empty, does not start with `/` or `.`, holds no `\` (a separator
      on win32), and every `/` is followed by a character other than `/` and `.` (no empty,
      `.` or `..` segment and no trailing `/`). */
  predicate Canonical(p: string) {
    |p| > 0 && p[0] != '/' && p[0] != '.' && '\\' !in p &&
    forall i | 0 <= i < |p| && p[i] == '/' :: i + 1 < |p| && p[i + 1] != '/' && p[i + 1] != '.'
  }

  /** For a URL in the asset namespace the expanded cache folder takes the place of
      `/assets`. */
  lemma DownloadPathOfAssetUrl(cacheFolder: Option<string>, url: string)
    requires AssetsPrefix <= url
    ensures DownloadPath(cacheFolder, url) ==
            Replace(FolderText(cacheFolder, url) + url[|AssetsPrefix|..], VersionMarker, ".")
  {
    ReplaceAtStart(url, AssetsPrefix, CacheFolder(cacheFolder));
  }

  /** A cache folder without `$` is inserted as written. */
  lemma FolderTextLiteral(cacheFolder: Option<string>, url: string)
    requires AssetsPrefix <= url
    requires '$' !in CacheFolder(cacheFolder)
    ensures FolderText(cacheFolder, url) == CacheFolder(cacheFolder)
  {
    SubstituteLiteral(CacheFolder(cacheFolder), AssetsPrefix, "", url[|AssetsPrefix|..]);
  }

  /** Without a configured cache folder, `downloadAsset` writes every asset URL exactly where
      `loadNative` later reads it. */
  lemma DefaultFolderMatchesLoadPath(url: string)
    requires AssetsPrefix <= url
    ensures DownloadPath(None, url) == LoadPath(url)
  {
    DownloadPathOfAssetUrl(None, url);
    FolderTextLiteral(None, url);
    assert DefaultCacheFolder + url[|AssetsPrefix|..] == url[1..];
  }

  /** The folder ``assets$` `` expands to `assets` (`` $` `` is the empty text before the
      match), so it too writes every asset URL where `loadNative` reads it. */
  lemma PatternFolderMatchesLoadPath(url: string)
    requires AssetsPrefix <= url
    ensures DownloadPath(Some("assets$`"), url) == LoadPath(url)
  {
    var rest := url[|AssetsPrefix|..];
    assert FolderText(Some("assets$`"), url) == DefaultCacheFolder by {
      ExpandPatternFolder(rest);
    }
    DownloadPathOfAssetUrl(Some("assets$`"), url);
    assert DefaultCacheFolder + rest == url[1..];
  }

  /** ``assets$` `` expands to `assets` for a match at the start of the URL. */
  lemma ExpandPatternFolder(rest: string)
    ensures Substitute("assets$`", AssetsPrefix, "", rest) == DefaultCacheFolder
  {
    var f := "assets$`";
    assert f == "assets" + f[6..] && f[6..] == "$`";
    assert Substitute(f[6..], AssetsPrefix, "", rest) == "" by {
      assert f[6..][2..] == "";
    }
    SubstituteLiteral("assets", AssetsPrefix, "", rest);
    SubstituteAppend("assets", f[6..], AssetsPrefix, "", rest);
  }

  /** A literal head expands to itself in front of the expansion of the rest. */
  lemma {:induction false} SubstituteAppend(head: string, tail: string, matched: string, before: string, after: string)
    requires '$' !in head
    ensures Substitute(head + tail, matched, before, after) == head + Substitute(tail, matched, before, after)
    decreases |head|
  {
    if |head| > 0 {
      assert (head + tail)[0] == head[0] != '$';
      assert (head + tail)[1..] == head[1..] + tail;
      assert Substitute(head + tail, matched, before, after) ==
             [head[0]] + Substitute(head[1..] + tail, matched, before, after);
      SubstituteAppend(head[1..], tail, matched, before, after);
      assert head == [head[0]] + head[1..];
    } else {
      assert head + tail == tail;
    }
  }

  /** `m + "?v=" + tag` has its first marker right after `m` when `m` holds none. */
  lemma ReplaceVersionMarker(m: string, tag: string)
    requires Free(m, VersionMarker)
    ensures Replace(m + VersionMarker + tag, VersionMarker, ".") == m + "." + tag
  {
    var s := m + VersionMarker + tag;
    assert s[|m|..|m| + 3] == VersionMarker;
    forall j: nat | j < |m| ensures !Occurs(s, VersionMarker, j) {
      assert !Occurs(m, VersionMarker, j);
      if j + 3 <= |m| {
        assert s[j..j + 3] == m[j..j + 3];
      } else {
        assert s[|m|] == '?';
        assert VersionMarker[|m| - j] != '?';
        assert s[j..j + 3][|m| - j] == s[|m|];
      }
    }
    ReplaceAtFirstOccurrence(s, VersionMarker, ".", |m|);
    SubstituteLiteral(".", VersionMarker, s[..|m|], s[|m| + 3..]);
    assert s[..|m|] == m;
    assert s[|m| + 3..] == tag;
  }

  /** A versioned asset URL `base?v=tag` is cached under `<folder><rest of base>.tag`, where
      `<folder>` is the expanded cache folder. */
  lemma VersionedDownloadPath(cacheFolder: Option<string>, base: string, tag: string)
    requires AssetsPrefix <= base
    requires Free(FolderText(cacheFolder, base + VersionMarker + tag) + base[|AssetsPrefix|..], VersionMarker)
    ensures DownloadPath(cacheFolder, base + VersionMarker + tag) ==
            FolderText(cacheFolder, base + VersionMarker + tag) + base[|AssetsPrefix|..] + "." + tag
  {
    var url := base + VersionMarker + tag;
    DownloadPathOfAssetUrl(cacheFolder, url);
    assert url[|AssetsPrefix|..] == base[|AssetsPrefix|..] + VersionMarker + tag;
    var m := FolderText(cacheFolder, url) + base[|AssetsPrefix|..];
    assert FolderText(cacheFolder, url) + url[|AssetsPrefix|..] == m + VersionMarker + tag;
    ReplaceVersionMarker(m, tag);
  }

  /** The download path of `base?v=tag` ends with the tag, after a head whose length grows
      with the tag's. */
  lemma DownloadPathEndsWithTag(cacheFolder: Option<string>, base: string, tag: string)
    requires AssetsPrefix <= base
    ensures var url := base + VersionMarker + tag;
            var head := FolderText(cacheFolder, url) + base[|AssetsPrefix|..];
            DownloadPath(cacheFolder, url) == Replace(head + VersionMarker, VersionMarker, ".") + tag &&
            |Replace(head + VersionMarker, VersionMarker, ".")| == |head| + 1
  {
    var url := base + VersionMarker + tag;
    var head := FolderText(cacheFolder, url) + base[|AssetsPrefix|..];
    assert DownloadPath(cacheFolder, url) == Replace(head + VersionMarker + tag, VersionMarker, ".") by {
      DownloadPathOfAssetUrl(cacheFolder, url);
      assert FolderText(cacheFolder, url) + url[|AssetsPrefix|..] == head + VersionMarker + tag;
    }
    ReplaceKeepsTail(head, VersionMarker, ".", tag);
    MarkerAtEndLength(head);
  }

  /** Replacing the marker that ends `head + "?v="` shortens it to `|head| + 1`. */
  lemma MarkerAtEndLength(head: string)
    ensures |Replace(head + VersionMarker, VersionMarker, ".")| == |head| + 1
  {
    assert (head + VersionMarker)[|head|..|head| + |VersionMarker|] == VersionMarker;
    ReplaceLiteralLength(head + VersionMarker, VersionMarker, ".", |head|);
  }

  /** Two versions of the same asset are never cached under the same path by
      `downloadAsset`, whatever the cache folder, even one whose `$'` copies the tag. */
  lemma DistinctVersionsDistinctDownloadPaths(cacheFolder: Option<string>, base: string, tag1: string, tag2: string)
    requires AssetsPrefix <= base
    requires tag1 != tag2
    ensures DownloadPath(cacheFolder, base + VersionMarker + tag1) != DownloadPath(cacheFolder, base + VersionMarker + tag2)
  {
    var f, r := CacheFolder(cacheFolder), base[|AssetsPrefix|..];
    var url1, url2 := base + VersionMarker + tag1, base + VersionMarker + tag2;
    assert url1[|AssetsPrefix|..] == r + VersionMarker + tag1;
    assert url2[|AssetsPrefix|..] == r + VersionMarker + tag2;
    DownloadPathEndsWithTag(cacheFolder, base, tag1);
    DownloadPathEndsWithTag(cacheFolder, base, tag2);
    var d1, d2 := DownloadPath(cacheFolder, url1), DownloadPath(cacheFolder, url2);
    var h1, h2 := FolderText(cacheFolder, url1) + r, FolderText(cacheFolder, url2) + r;
    if |tag1| <= |tag2| {
      SubstituteLengthMonotone(f, AssetsPrefix, "", url1[|AssetsPrefix|..], url2[|AssetsPrefix|..]);
    }
    if |tag2| <= |tag1| {
      SubstituteLengthMonotone(f, AssetsPrefix, "", url2[|AssetsPrefix|..], url1[|AssetsPrefix|..]);
    }
    if |tag1| == |tag2| {
      assert |h1| == |h2|;
      assert d1[|h1| + 1..] == tag1 && d2[|h2| + 1..] == tag2;
    } else {
      assert |d1| != |d2|;
    }
  }

  /** Two versions of the same asset are never read from the same path by `loadNative`. */
  lemma DistinctVersionsDistinctLoadPaths(base: string, tag1: string, tag2: string)
    requires |base| > 0
    requires tag1 != tag2
    ensures LoadPath(base + VersionMarker + tag1) != LoadPath(base + VersionMarker + tag2)
  {
    assert DropFirst(base + VersionMarker + tag1) == base[1..] + VersionMarker + tag1;
    assert DropFirst(base + VersionMarker + tag2) == base[1..] + VersionMarker + tag2;
    if LoadPath(base + VersionMarker + tag1) == LoadPath(base + VersionMarker + tag2) {
      ReplaceInjectiveAfterMarker(base[1..], VersionMarker, ".", tag1, tag2);
    }
  }

  /** A configured cache folder whose expansion is not `assets` moves where `downloadAsset`
      writes a versioned asset, but not where `loadNative` reads it: the two paths differ. */
  lemma CacheFolderIgnoredByLoad(folder: string, base: string, tag: string)
    requires AssetsPrefix <= base
    requires FolderText(Some(folder), base + VersionMarker + tag) != DefaultCacheFolder
    requires Free(FolderText(Some(folder), base + VersionMarker + tag) + base[|AssetsPrefix|..], VersionMarker)
    requires Free(DefaultCacheFolder + base[|AssetsPrefix|..], VersionMarker)
    ensures DownloadPath(Some(folder), base + VersionMarker + tag) != LoadPath(base + VersionMarker + tag)
  {
    var url := base + VersionMarker + tag;
    var rest := base[|AssetsPrefix|..] + "." + tag;
    var f := FolderText(Some(folder), url);
    assert DownloadPath(Some(folder), url) == f + rest by {
      VersionedDownloadPath(Some(folder), base, tag);
    }
    assert LoadPath(url) == DefaultCacheFolder + rest by {
      FolderTextLiteral(None, url);
      VersionedDownloadPath(None, base, tag);
      DefaultFolderMatchesLoadPath(url);
    }
    PrefixesDiffer(f, DefaultCacheFolder, rest);
  }

  /** Different prefixes of the same text give different strings. */
  lemma PrefixesDiffer(a: string, b: string, rest: string)
    requires a != b
    ensures a + rest != b + rest
  {
    if |a| != |b| {
      assert |a + rest| != |b + rest|;
    } else {
      var i :| 0 <= i < |a| && a[i] != b[i];
      assert (a + rest)[i] != (b + rest)[i];
    }
  }

  /** `path.extname`: from the last `.` of the last segment to the end, or empty when that
      segment has no `.` or only a leading one. Read from the end of the path: a `/` ends
      the segment, and a `.` that opens it does not count. */
  function Extname(p: string): string
    decreases |p|
  {
    if |p| == 0 then ""
    else
      var c := p[|p| - 1];
      if c == '/' then ""
      else if c == '.' then (if |p| == 1 || p[|p| - 2] == '/' then "" else ".")
      else
        var e := Extname(p[..|p| - 1]);
        if e == "" then "" else e + [c]
  }

  /** An extension is empty or a suffix of the path that starts with `.` and holds no
      further `.` and no `/`. */
  lemma {:induction false} ExtnameIsExtension(p: string)
    ensures var e := Extname(p); |e| <= |p| && e == p[|p| - |e|..]
    ensures var e := Extname(p); e != [] ==> e[0] == '.' && '.' !in e[1..] && '/' !in e
    decreases |p|
  {
    if |p| > 0 && p[|p| - 1] != '/' && p[|p| - 1] != '.' {
      var q, c := p[..|p| - 1], p[|p| - 1];
      ExtnameIsExtension(q);
      var e := Extname(q);
      if e != "" {
        assert Extname(p) == e + [c];
        assert p[|p| - |e| - 1..] == q[|q| - |e|..] + [c];
        assert (e + [c])[1..] == e[1..] + [c];
      }
    }
  }

  /** The extension of `dir/name.ext` is `.ext` when `ext` holds no `.` and no `/` and the
      file name is not empty; a `?v=` tag stays part of the extension. */
  lemma {:induction false} ExtnameOfFile(dir: string, name: string, ext: string)
    requires |name| > 0 && '/' !in name && '/' !in ext && '.' !in ext
    ensures Extname(dir + "/" + name + "." + ext) == "." + ext
    decreases |ext|
  {
    var p := dir + "/" + name + "." + ext;
    if |ext| == 0 {
      assert p == dir + "/" + name + ".";
      assert p[|p| - 2] == name[|name| - 1];
    } else {
      var rest, c := ext[..|ext| - 1], ext[|ext| - 1];
      assert ext == rest + [c];
      ExtnameOfFile(dir, name, rest);
      assert p[..|p| - 1] == dir + "/" + name + "." + rest;
      assert "." + ext == "." + rest + [c];
    }
  }
}
