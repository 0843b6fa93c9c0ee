/** Mirror planning: from a remote playlist URL and its decoded playlist, the
    files the download handler fetches and where it saves them, and the
    sequential segment loop that stops at the first failure. */
module Mirror {
  import opened Wrappers
  import opened Paths
  import opened Naming

  /** The kind of playlist m3u8.DecodeFrom reports. */
  datatype ListType = Media | Master

  /** A decoded playlist: its kind and its segment entries in document
      order; None stands for a nil segment pointer. */
  datatype Playlist = Playlist(kind: ListType, segments: seq<Option<string>>)

  /** One planned transfer: fetch `url`, save it at `output`. */
  datatype Transfer = Transfer(url: string, output: string)

  /** The step of a transfer that failed: the GET, creating the output file,
      or copying the body into it. */
  datatype Fault = FetchFailed | CreateFailed | CopyFailed

  /** The file name of the remote playlist: the last element of the URL. */
  function PlaylistFile(rawURL: string): (f: string)
    ensures f != []
    ensures rawURL != [] && !IsSeparator(rawURL[|rawURL| - 1]) ==>
      && HasSuffix(rawURL, f) && NoSeparator(f)
      && (|f| == |rawURL| || IsSeparator(rawURL[|rawURL| - |f| - 1]))
  {
    Base(rawURL)
  }

  /** The local title of a mirror. */
  function MirrorName(rawURL: string): (t: string)
    ensures HasSuffix(PlaylistFile(rawURL), PlaylistExt) ==> t + PlaylistExt == PlaylistFile(rawURL)
    ensures !HasSuffix(PlaylistFile(rawURL), PlaylistExt) ==> t == PlaylistFile(rawURL)
  {
    Title(PlaylistFile(rawURL))
  }

  /** The catalog path registered for a mirror: "videos/<name>/<file>". */
  function MirrorPath(rawURL: string): (p: string)
    ensures HasPrefix(p, StoragePrefix)
    ensures TrimPrefix(p, StoragePrefix) == MirrorName(rawURL) + "/" + PlaylistFile(rawURL)
  {
    LocalPath(MirrorName(rawURL), PlaylistFile(rawURL))
  }

  /** A segment entry the loop downloads: non-nil with a non-empty URI. */
  predicate Usable(entry: Option<string>)
  {
    entry.Some? && entry.value != ""
  }

  /** The URIs of the usable segment entries, in document order. */
  function SegmentURIs(segments: seq<Option<string>>): (uris: seq<string>)
    ensures |uris| <= |segments|
    ensures forall u :: u in uris ==> u != ""
    decreases |segments|
  {
    if segments == [] then []
    else
      var last := segments[|segments| - 1];
      SegmentURIs(segments[..|segments| - 1]) + (if Usable(last) then [last.value] else [])
  }

  /** The transfers for a list of segment URIs, in the same order. */
  function Transfers(baseURL: string, name: string, uris: seq<string>): (ts: seq<Transfer>)
    ensures |ts| == |uris|
    ensures forall k :: 0 <= k < |uris| ==>
      ts[k] == Transfer(SegmentURL(baseURL, name, uris[k]), LocalPath(name, uris[k]))
    decreases |uris|
  {
    if uris == [] then []
    else
      var u := uris[|uris| - 1];
      Transfers(baseURL, name, uris[..|uris| - 1]) + [Transfer(SegmentURL(baseURL, name, u), LocalPath(name, u))]
  }

  /** The segment plan: one transfer per usable segment of a media playlist;
      nothing for any other kind of playlist. */
  function Plan(baseURL: string, name: string, playlist: Playlist): (ts: seq<Transfer>)
    ensures playlist.kind != Media ==> ts == []
    ensures playlist.kind == Media ==>
      var uris := SegmentURIs(playlist.segments);
      && |ts| == |uris|
      && forall k :: 0 <= k < |ts| ==> ts[k] == Transfer(SegmentURL(baseURL, name, uris[k]), LocalPath(name, uris[k]))
  {
    if playlist.kind == Media then Transfers(baseURL, name, SegmentURIs(playlist.segments)) else []
  }

  /** The output paths of transfers, in order. */
  function Outputs(ts: seq<Transfer>): (outs: seq<string>)
    ensures |outs| == |ts|
    ensures forall k :: 0 <= k < |ts| ==> outs[k] == ts[k].output
    decreases |ts|
  {
    if ts == [] then [] else Outputs(ts[..|ts| - 1]) + [ts[|ts| - 1].output]
  }

  /** The segment loop: perform the transfers one after another and stop at
      the first whose fetch, create or copy fails (transfer k fails when k is
      in `faults`). The transfers completed are a prefix of the plan; the
      loop reports no fault exactly when the whole plan was completed. */
  method DownloadSegments(plan: seq<Transfer>, faults: map<nat, Fault>) returns (done: seq<Transfer>, stop: Option<Fault>)
    ensures done <= plan
    ensures forall k :: 0 <= k < |done| ==> k !in faults
    ensures stop.None? <==> done == plan
    ensures stop.Some? ==> |done| in faults && stop.value == faults[|done|]
  {
    done := [];
    var i := 0;
    while i < |plan|
      invariant 0 <= i <= |plan|
      invariant done == plan[..i]
      invariant forall k :: 0 <= k < i ==> k !in faults
    {
      if i in faults {
        return done, Some(faults[i]);
      }
      done := done + [plan[i]];
      i := i + 1;
    }
    stop := None;
  }

  /** Taking the usable entries of concatenated lists is concatenating what
      each list keeps: order is preserved and nothing is moved across. */
  lemma {:induction false} SegmentURIsAppend(a: seq<Option<string>>, b: seq<Option<string>>)
    ensures SegmentURIs(a + b) == SegmentURIs(a) + SegmentURIs(b)
    decreases |b|
  {
    if b == [] {
      assert a + b == a;
    } else {
      var init := b[..|b| - 1];
      assert (a + b)[..|a + b| - 1] == a + init;
      SegmentURIsAppend(a, init);
    }
  }

  /** A single entry keeps its URI exactly when it is usable. */
  lemma SegmentURIsSingle(e: Option<string>)
    ensures SegmentURIs([e]) == if Usable(e) then [e.value] else []
  {
  }

  /** A URI is planned exactly when some entry of the playlist carries it
      and is usable. */
  lemma {:induction false} SegmentURIsMembers(segments: seq<Option<string>>, u: string)
    ensures u in SegmentURIs(segments) <==> exists i :: 0 <= i < |segments| && segments[i] == Some(u) && u != ""
    decreases |segments|
  {
    if segments != [] {
      var init := segments[..|segments| - 1];
      SegmentURIsMembers(init, u);
      if exists i :: 0 <= i < |segments| && segments[i] == Some(u) && u != "" {
        var i :| 0 <= i < |segments| && segments[i] == Some(u) && u != "";
        if i < |init| {
          assert init[i] == Some(u);
        }
      }
    }
  }

  /** Nil entries and entries with an empty URI are skipped; the rest keep
      their document order. */
  lemma SegmentURIsExample(a: string, b: string)
    requires a != "" && b != ""
    ensures SegmentURIs([Some(a), None, Some(""), Some(b)]) == [a, b]
  {
    var segs := [Some(a), None, Some(""), Some(b)];
    assert segs == [Some(a)] + [None] + [Some("")] + [Some(b)];
    SegmentURIsAppend([Some(a)] + [None] + [Some("")], [Some(b)]);
    SegmentURIsAppend([Some(a)] + [None], [Some("")]);
    SegmentURIsAppend([Some(a)], [None]);
    SegmentURIsSingle(Some(a));
    SegmentURIsSingle(None);
    SegmentURIsSingle(Some(""));
    SegmentURIsSingle(Some(b));
  }

  /** The plan of a media playlist [a, nil, "", b]: a and b, in that order,
      each fetched from the origin under the local title and saved beside
      the playlist. */
  lemma PlanExample(baseURL: string, name: string, a: string, b: string)
    requires a != "" && b != ""
    ensures Plan(baseURL, name, Playlist(Media, [Some(a), None, Some(""), Some(b)])) ==
      [ Transfer(SegmentURL(baseURL, name, a), LocalPath(name, a)),
        Transfer(SegmentURL(baseURL, name, b), LocalPath(name, b)) ]
  {
    SegmentURIsExample(a, b);
  }

  /** For the playlist "https://cdn.example/show/index.m3u8" the segment
      "seg0.ts" is fetched from "https://cdn.example/index/seg0.ts": the
      remote directory "show" plays no part, and the URI is not resolved
      against the playlist's URL as section 4.1 of RFC 8216 describes. */
  lemma SegmentURLExample()
    ensures SegmentURL(BaseURL(UrlParts("https", "cdn.example")), "index", "seg0.ts") == "https://cdn.example/index/seg0.ts"
  {
    var origin := BaseURL(UrlParts("https", "cdn.example"));
    assert origin == "https" + "://" + "cdn.example";
    assert SegmentURL(origin, "index", "seg0.ts") == origin + "/" + "index" + "/" + "seg0.ts";
  }

  /** The names derived from a remote playlist URL "<dir>/<file>": the file
      is the last element, the title drops ".m3u8", and the catalog path is
      "videos/<title>/<file>". */
  lemma MirrorNaming(dir: string, file: string)
    requires file != [] && NoSeparator(file)
    ensures PlaylistFile(dir + "/" + file) == file
    ensures HasSuffix(file, PlaylistExt) ==> MirrorName(dir + "/" + file) + PlaylistExt == file
    ensures !HasSuffix(file, PlaylistExt) ==> MirrorName(dir + "/" + file) == file
    ensures MirrorPath(dir + "/" + file) == "videos/" + MirrorName(dir + "/" + file) + "/" + file
  {
    BaseOfJoin(dir, file);
  }

  /** A remote playlist "<dir>/<name>.m3u8" is mirrored under the title
      `name`, at "videos/<name>/<name>.m3u8". */
  lemma MirrorOfPlaylistFile(dir: string, name: string)
    requires NoSeparator(name)
    ensures MirrorName(dir + "/" + name + PlaylistExt) == name
    ensures MirrorPath(dir + "/" + name + PlaylistExt) == LocalPath(name, name + PlaylistExt)
  {
    var file := name + PlaylistExt;
    assert file[|file| - |PlaylistExt|..] == PlaylistExt;
    assert file[..|name|] == name;
    assert NoSeparator(file);
    assert dir + "/" + name + PlaylistExt == dir + "/" + file;
    MirrorNaming(dir, file);
  }

}
