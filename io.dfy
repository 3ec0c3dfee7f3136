/** The collaborators the interception layer performs I/O through: Node's promise-based `fs`
    (`stat`, `readFile`, `writeFile`) and the browser's `fetch`. Both are kept abstract: the
    file system is a map from (relative) path to content, the network an oracle. */
module Io {
  import opened Wrappers
  import opened Base64

  type Path = string
  type Url = string

  class FileStore {
    /** The files present, by path. */
    var files: map<Path, seq<Byte>>
    /** Every `writeFile` call, in order, successful or not. */
    var writes: seq<Path>
    /** Whether `writeFile` succeeds on a path (it fails, say, when a directory is missing). */
    const canWrite: Path -> bool

    constructor (files: map<Path, seq<Byte>>, canWrite: Path -> bool)
      ensures this.files == files && this.canWrite == canWrite && writes == []
    {
      this.files := files;
      this.canWrite := canWrite;
      writes := [];
    }

    /** `stat`: any failure counts as absence. */
    predicate Exists(path: Path)
      reads this
    {
      path in files
    }

    /** `readFile`: the content, or a rejection (`None`) when the file is missing. */
    method ReadFile(path: Path) returns (r: Option<seq<Byte>>)
      ensures r == if path in files then Some(files[path]) else None
    {
      r := if path in files then Some(files[path]) else None;
    }

    /** `writeFile`: records the call, and replaces the content when the write succeeds. */
    method WriteFile(path: Path, data: seq<Byte>) returns (ok: bool)
      modifies this
      ensures writes == old(writes) + [path]
      ensures ok == canWrite(path)
      ensures files == if ok then old(files)[path := data] else old(files)
    {
      writes := writes + [path];
      ok := canWrite(path);
      if ok {
        files := files[path := data];
      }
    }
  }

  class Network {
    /** What `fetch(url)` then `arrayBuffer()` yield: the body, whatever the HTTP status, or
        `None` when the request is rejected. */
    const respond: Url -> Option<seq<Byte>>
    /** Every URL fetched, in order. */
    var fetched: seq<Url>

    constructor (respond: Url -> Option<seq<Byte>>)
      ensures this.respond == respond && fetched == []
    {
      this.respond := respond;
      fetched := [];
    }

    method Fetch(url: Url) returns (r: Option<seq<Byte>>)
      modifies this
      ensures fetched == old(fetched) + [url]
      ensures r == respond(url)
    {
      fetched := fetched + [url];
      r := respond(url);
    }
  }
}
