/** The outcomes of the three JSON handlers: the playback-link lookup, the
    mirror download and the title listing. Routing, JSON encoding and header
    writing are not modelled; a handler's effect is the response it chooses,
    the catalog rows it leaves and, for the mirror, the files it saves. */
module Handlers {
  import opened Wrappers
  import opened Paths
  import opened Naming
  import opened Catalog
  import opened Mirror

  const StatusBadRequest := 400
  const StatusNotFound := 404
  const StatusMethodNotAllowed := 405
  const StatusInternalServerError := 500

  /** A request as a handler sees it: the HTTP method (verb), the Host header, and the one
      field it reads from the JSON body (None when the body does not decode;
      a body without the field decodes to the empty string). */
  datatype Request = Request(verb: string, host: string, field: Option<string>)

  datatype Response =
    | Error(status: nat)              // http.Error with this status
    | VideoURL(url: string)           // {"url": ...}
    | TitleList(titles: seq<string>)  // {"titles": [...]}
    | Saved                           // 200 "Downloaded and saved files successfully"
    | Unanswered                      // the handler returns without writing anything

  /** A POST whose body decoded to a non-empty field: the requests that get
      past the checks at the top of videoLinkHandler and downloadHandler. */
  predicate Accepted(req: Request)
  {
    req.verb == "POST" && req.field.Some? && req.field.value != ""
  }

  /** What the mirror's environment reports at each step: the parse of the
      URL, directory creation, the catalog insert, the playlist transfer,
      reading the saved playlist back, its decoding, and the failing step of
      each planned segment transfer (by position in the plan). */
  datatype MirrorEnv = MirrorEnv(
    parsed: Option<UrlParts>,
    mkdirFails: bool,
    insertFails: bool,
    playlistFault: Option<Fault>,
    readFails: bool,
    decoded: Option<Playlist>,
    segmentFaults: map<nat, Fault>)

  /** The mirror gets as far as registering its title. */
  predicate Registers(req: Request, env: MirrorEnv)
  {
    Accepted(req) && env.parsed.Some? && !env.mkdirFails
  }

  /** videoLinkHandler: 405 for anything but POST, 400 for an undecodable
      body or an empty title, 404 for a title not in the catalog, 500 for any
      other lookup error, and otherwise the playback URL of the cataloged path. */
  method VideoLink(store: Store, req: Request, lookupFault: bool) returns (resp: Response)
    requires store.Valid()
    ensures resp == Error(StatusMethodNotAllowed) <==> req.verb != "POST"
    ensures resp == Error(StatusBadRequest) <==> req.verb == "POST" && !Accepted(req)
    ensures resp == Error(StatusNotFound) <==> Accepted(req) && !lookupFault && !store.Exists(req.field.value)
    ensures resp == Error(StatusInternalServerError) <==> Accepted(req) && lookupFault
    ensures forall p :: Accepted(req) && !lookupFault && Row(req.field.value, p) in store.rows ==>
      resp == VideoURL(PlaybackURL(req.host, p))
  {
    if req.verb != "POST" {
      return Error(StatusMethodNotAllowed);
    }
    if req.field.None? || req.field.value == "" {
      return Error(StatusBadRequest);
    }
    var found := store.Lookup(req.field.value, lookupFault);
    match found
    case NotFound => resp := Error(StatusNotFound);
    case LookupFailed => resp := Error(StatusInternalServerError);
    case Found(path) => resp := VideoURL(PlaybackURL(req.host, path));
  }

  /** getAllVideosHandler: 405 for anything but GET, 500 when the query or
      the scan of a row the loop reaches fails, and otherwise the titles of
      the rows before the one where rows.Next() stopped, in row order, each
      exactly once: every cataloged title unless the driver failed mid-scan. */
  method AllVideos(store: Store, verb: string, queryFault: bool, scanFaults: set<nat>, nextFault: Option<nat>)
    returns (resp: Response)
    requires store.Valid()
    ensures verb != "GET" ==> resp == Error(StatusMethodNotAllowed)
    ensures var end := ScanEnd(|store.rows|, nextFault);
      verb == "GET" && !queryFault && (forall i :: 0 <= i < end ==> i !in scanFaults) ==>
        resp == TitleList(Titles(store.rows[..end]))
    ensures var end := ScanEnd(|store.rows|, nextFault);
      verb == "GET" && (queryFault || exists i :: 0 <= i < end && i in scanFaults) ==>
        resp == Error(StatusInternalServerError)
    ensures verb == "GET" && resp.TitleList? && nextFault.None? ==> resp.titles == Titles(store.rows)
    ensures resp.TitleList? ==> forall i, j :: 0 <= i < j < |resp.titles| ==> resp.titles[i] != resp.titles[j]
  {
    if verb != "GET" {
      return Error(StatusMethodNotAllowed);
    }
    var titles := store.ListTitles(queryFault, scanFaults, nextFault);
    match titles
    case None => resp := Error(StatusInternalServerError);
    case Some(ts) => resp := TitleList(ts);
  }

  /** The files a mirror saves once its title is registered: the playlist
      document at `path`, then the segments of the decoded playlist. */
  function SavedFiles(path: string, baseURL: string, name: string, decoded: Option<Playlist>): seq<string>
  {
    [path] + (if decoded.Some? then Outputs(Plan(baseURL, name, decoded.value)) else [])
  }

  /** Every transfer after registration succeeds. */
  predicate TransfersSucceed(baseURL: string, name: string, env: MirrorEnv)
  {
    && env.playlistFault.None?
    && !env.readFails
    && env.decoded.Some?
    && forall k :: 0 <= k < |Plan(baseURL, name, env.decoded.value)| ==> k !in env.segmentFaults
  }

  /** Every step of a mirror succeeds: it registers its title, and every
      transfer after that succeeds. */
  predicate Completes(req: Request, env: MirrorEnv)
  {
    && Registers(req, env)
    && TransfersSucceed(BaseURL(env.parsed.value), MirrorName(req.field.value), env)
  }

  /** What a mirror past registration has saved when it stops: a prefix of
      playlist-then-segments; the playlist exactly when its transfer
      succeeded; nothing more when reading it back or decoding it failed;
      and, once the segment loop ran, the segments before the first failing
      transfer and none from it on. */
  predicate SavedUpToFailure(saved: seq<string>, path: string, baseURL: string, name: string, env: MirrorEnv)
  {
    && saved <= SavedFiles(path, baseURL, name, env.decoded)
    && (saved != [] <==> env.playlistFault.None?)
    && (env.playlistFault.None? && (env.readFails || env.decoded.None?) ==> saved == [path])
    && (env.playlistFault.None? && !env.readFails && env.decoded.Some? ==>
      var plan := Plan(baseURL, name, env.decoded.value);
      && (forall k :: 0 <= k < |saved| - 1 ==> k !in env.segmentFaults)
      && (|saved| - 1 < |plan| ==> |saved| - 1 in env.segmentFaults))
  }

  /** The second half of downloadHandler: save the playlist document at
      `path`, read it back and decode it, then run the segment loop. Any
      failure stops the handler; the files saved before it stay. Saved are
      the playlist once its transfer succeeds, and then the segments up to
      (not including) the first one whose transfer fails. */
  method SaveMirror(path: string, baseURL: string, name: string, env: MirrorEnv) returns (completed: bool, saved: seq<string>)
    ensures completed <==> TransfersSucceed(baseURL, name, env)
    ensures SavedUpToFailure(saved, path, baseURL, name, env)
    ensures completed ==> saved == SavedFiles(path, baseURL, name, env.decoded)
  {
    saved := [];
    if env.playlistFault.Some? {
      return false, saved;
    }
    saved := [path];
    if env.readFails || env.decoded.None? {
      return false, saved;
    }
    var plan := Plan(baseURL, name, env.decoded.value);
    var done, stop := DownloadSegments(plan, env.segmentFaults);
    OutputsOfPrefix(done, plan);
    saved := saved + Outputs(done);
    completed := stop.None?;
  }

  /** downloadHandler: after the request checks, derive the mirror's title
      and catalog path, register them (insert unless the title exists)
      before anything is downloaded, then save the playlist and its segments.
      Any failure past the request checks ends the handler without a
      response; the files saved by then stay, and so does the catalog row. */
  method Download(store: Store, req: Request, env: MirrorEnv) returns (resp: Response, saved: seq<string>)
    requires store.Valid()
    modifies store
    ensures store.Valid()
    ensures store.rows == if Registers(req, env)
      then GuardedInsert(old(store.rows), MirrorName(req.field.value), MirrorPath(req.field.value), env.insertFails)
      else old(store.rows)
    ensures resp == Error(StatusMethodNotAllowed) <==> req.verb != "POST"
    ensures resp == Error(StatusBadRequest) <==> req.verb == "POST" && !Accepted(req)
    ensures resp == Saved <==> Completes(req, env)
    ensures Accepted(req) && !Completes(req, env) ==> resp == Unanswered
    ensures !Registers(req, env) ==> saved == []
    ensures Registers(req, env) ==>
      SavedUpToFailure(saved, MirrorPath(req.field.value), BaseURL(env.parsed.value), MirrorName(req.field.value), env)
    ensures Registers(req, env) && resp == Saved ==>
      saved == SavedFiles(MirrorPath(req.field.value), BaseURL(env.parsed.value), MirrorName(req.field.value), env.decoded)
  {
    saved := [];
    if req.verb != "POST" {
      return Error(StatusMethodNotAllowed), saved;
    }
    if req.field.None? || req.field.value == "" {
      return Error(StatusBadRequest), saved;
    }
    var rawURL := req.field.value;
    if env.parsed.None? {
      return Unanswered, saved;
    }
    var baseURL := BaseURL(env.parsed.value);
    var name := MirrorName(rawURL);
    if env.mkdirFails {
      return Unanswered, saved;
    }
    var path := MirrorPath(rawURL);
    var outcome := store.InsertUnlessExists(name, path, env.insertFails);
    var completed;
    completed, saved := SaveMirror(path, baseURL, name, env);
    resp := if completed then Saved else Unanswered;
  }

  /** The outputs of a prefix of the plan are a prefix of its outputs. */
  lemma OutputsOfPrefix(done: seq<Transfer>, plan: seq<Transfer>)
    requires done <= plan
    ensures Outputs(done) <= Outputs(plan)
  {
  }

  /** A mirror of a playlist URL whose title is not yet cataloged catalogs
      that title as soon as it is registered, so the link handler then
      answers with the playback URL of the mirror's path, even when the
      playlist or a segment failed to download afterwards. */
  method MirrorThenLink(store: Store, url: string, env: MirrorEnv, host: string)
    returns (mirrored: Response, saved: seq<string>, link: Response)
    requires store.Valid()
    requires url != "" && MirrorName(url) != "" && !store.Exists(MirrorName(url))
    requires env.parsed.Some? && !env.mkdirFails && !env.insertFails
    modifies store
    ensures store.rows == old(store.rows) + [Row(MirrorName(url), MirrorPath(url))]
    ensures link == VideoURL(PlaybackURL(host, MirrorPath(url)))
  {
    var req := Request("POST", host, Some(url));
    mirrored, saved := Download(store, req, env);
    assert Row(MirrorName(url), MirrorPath(url)) in store.rows;
    link := VideoLink(store, Request("POST", host, Some(MirrorName(url))), false);
  }

  /** The mirror of "<dir>/<name>.m3u8", once registered, is played back
      from "http://<host>/<name>/<name>.m3u8". */
  lemma PlaybackOfMirror(dir: string, name: string, host: string)
    requires NoSeparator(name)
    ensures var url := dir + "/" + name + PlaylistExt;
      PlaybackURL(host, MirrorPath(url)) == "http://" + host + "/" + name + "/" + name + PlaylistExt
  {
    MirrorOfPlaylistFile(dir, name);
    PlaybackOfLocalPath(host, name, name + PlaylistExt);
  }

}
