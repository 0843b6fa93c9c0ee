/** How the service names things: the title derived from a playlist file
    name, the storage-relative path under "videos/", and the URLs it builds
    by formatting strings (main.go uses strings.TrimSuffix, strings.TrimPrefix
    and fmt.Sprintf for all of them). */
module Naming {
  import opened Paths

  /** The extension that marks a playlist document. */
  const PlaylistExt := ".m3u8"

  /** The storage root, as it prefixes every catalog path. */
  const StoragePrefix := "videos/"

  /** The fields of a parsed URL that the service reads (net/url.URL). */
  datatype UrlParts = UrlParts(scheme: string, host: string)

  /** The title of a playlist file: its name without one trailing ".m3u8". */
  function Title(fileName: string): (t: string)
    ensures HasSuffix(fileName, PlaylistExt) ==> t + PlaylistExt == fileName
    ensures !HasSuffix(fileName, PlaylistExt) ==> t == fileName
  {
    TrimSuffix(fileName, PlaylistExt)
  }

  /** Where a file of title `name` lives: "videos/<name>/<file>". This is the
      catalog path of a mirrored playlist and the output path of each of its
      segments (filepath.Join's cleaning is not modelled). */
  function LocalPath(name: string, file: string): (p: string)
    ensures HasPrefix(p, StoragePrefix)
    ensures TrimPrefix(p, StoragePrefix) == name + "/" + file
  {
    var p := StoragePrefix + name + "/" + file;
    assert p[..|StoragePrefix|] == StoragePrefix;
    assert p[|StoragePrefix|..] == name + "/" + file;
    p
  }

  /** scheme + "://" + host: the origin every segment is fetched from. */
  function BaseURL(u: UrlParts): (r: string)
    ensures HasPrefix(r, u.scheme + "://")
    ensures TrimPrefix(r, u.scheme + "://") == u.host
  {
    var r := u.scheme + "://" + u.host;
    assert r[..|u.scheme + "://"|] == u.scheme + "://";
    r
  }

  /** The URL a segment is fetched from: origin, local title, segment URI. */
  function SegmentURL(baseURL: string, name: string, uri: string): (r: string)
    ensures HasPrefix(r, baseURL + "/" + name + "/")
    ensures TrimPrefix(r, baseURL + "/" + name + "/") == uri
  {
    var r := baseURL + "/" + name + "/" + uri;
    assert r[..|baseURL + "/" + name + "/"|] == baseURL + "/" + name + "/";
    r
  }

  /** The playback URL handed to clients: "http://<host>/" followed by the
      catalog path with one leading "videos/" removed. */
  function PlaybackURL(host: string, path: string): (r: string)
    ensures HasPrefix(r, "http://" + host + "/")
    ensures TrimPrefix(r, "http://" + host + "/") == TrimPrefix(path, StoragePrefix)
  {
    var r := "http://" + host + "/" + TrimPrefix(path, StoragePrefix);
    assert r[..|"http://" + host + "/"|] == "http://" + host + "/";
    r
  }

  /** Exactly one leading "videos/" is dropped: a path under the storage root
      maps to the rest of the path (even when that rest starts with "videos/"
      again), and any other path is appended unchanged. */
  lemma PlaybackStripsOnePrefix(host: string, path: string)
    ensures forall rest :: path == StoragePrefix + rest ==>
      PlaybackURL(host, path) == "http://" + host + "/" + rest
    ensures !HasPrefix(path, StoragePrefix) ==>
      PlaybackURL(host, path) == "http://" + host + "/" + path
  {
    forall rest | path == StoragePrefix + rest
      ensures PlaybackURL(host, path) == "http://" + host + "/" + rest
    {
      assert path[..|StoragePrefix|] == StoragePrefix;
      assert path[|StoragePrefix|..] == rest;
    }
  }

  /** The playback URL of a file kept under the storage root points at the
      same file below the server's document root. */
  lemma PlaybackOfLocalPath(host: string, name: string, file: string)
    ensures PlaybackURL(host, LocalPath(name, file)) == "http://" + host + "/" + name + "/" + file
  {
  }

}
