# VideoService catalog and mirror core, modelled in Dafny

VideoService is a small Go HTTP server (`main.go`). It serves HLS playlists
(`.m3u8`) kept under a `videos/` storage root and keeps a SQLite table
`videos(title, path)` as its catalog. Two pieces of logic sit inside the HTTP
plumbing, and this project models both.

1. **The catalog and the startup sync.** The table has no uniqueness
   constraint. Titles stay unique only because every writer checks that a
   title is absent before it inserts it. `InitDB` walks the storage tree and
   tests every visited path, directories included, for the extension
   `.m3u8`. For a path that passes, it inserts a row unless the title is
   already cataloged: the title is the entry's name without `.m3u8`, and the
   path is the walked path with its separators normalised to `/`. A walk
   error aborts the sync. A failed insert is only logged, so that entry
   simply gets no row.
2. **Mirror planning and playback URLs.** `downloadHandler` takes a remote
   playlist URL and derives the following from it:
   - the file name, which is the last path element;
   - the title, which is that name without `.m3u8`;
   - the origin, which is `scheme://host`;
   - the catalog path `videos/<title>/<file>`.
   It registers the title before downloading anything. It then saves the
   playlist and, for a media playlist, every non-nil segment with a
   non-empty URI, in document order. Each segment is fetched from
   `origin/<title>/<uri>` and saved at `videos/<title>/<uri>`. The loop stops
   at the first failure. `videoLinkHandler` answers with
   `http://<host>/<path without one leading "videos/">`.

Modules, one per concern:

- `Paths` (`paths.dfy`): the Go library string and path functions the code
  relies on. These are `strings.TrimPrefix`/`TrimSuffix` and
  `filepath.Ext`/`Base`/`ToSlash`, written for the Unix build.
- `Naming` (`naming.dfy`): titles, local paths, segment URLs and playback
  URLs.
- `Catalog` (`catalog.dfy`): the rows, and the `Store` class whose methods
  read and append them.
- `Sync` (`sync.dfy`): the `InitDB` walk, as a loop over the walk's entries.
- `Mirror` (`mirror.dfy`): the segment plan and the sequential download loop.
- `Handlers` (`handlers.dfy`): the outcomes of `videoLinkHandler`,
  `downloadHandler` and `getAllVideosHandler`.
- `Wrappers` (`wrappers.dfy`): `Option`.

Every fault the environment can report is an input to the model: a database
error, a walk error, a URL parse error, a failed directory creation, a failed
fetch, create or copy, a failed read-back, or a decode error. A handler that
returns without writing anything is modelled by the response `Unanswered`.

The model follows the code as written, including these behaviours of it:

- A failed catalog insert is only logged, both in the sync and in the
  mirror. It does not propagate as an error.
- A playlist that fails to decode ends the mirror without a response. A
  playlist of another kind than media, or a media playlist with no usable
  segment, is a success with zero segments.
- Segment URIs are always appended to `origin/<title>/`, even when they are
  absolute. They are never resolved against the playlist's own URL as
  section 4.1 of RFC 8216 describes. `Mirror.SegmentURLExample` shows this.
- The title listing never consults `rows.Err()`. When the driver fails
  while stepping to the next row, the loop simply ends and the titles read
  so far are answered as a success (see "## Findings").

## Model

| member | source | states |
|---|---|---|
| `Paths.TrimPrefix` | main.go:126 | with the prefix present, prefix + result is the input; without it, the input is returned unchanged |
| `Paths.TrimSuffix` | main.go:61 | with the suffix present, result + suffix is the input; without it, the input is returned unchanged |
| `Paths.ToSlash` | main.go:62 | the result has the input's length; each host separator becomes '/' and every other character is kept |
| `Paths.ExtBefore` | main.go:60 | the extension scan returns "" or a suffix of the path that starts with '.' and holds no other '.' and no separator; it returns "" only when every '.' before the scan position is followed by a separator before it |
| `Paths.Ext` | main.go:60 | the extension is the suffix starting at the final '.' of the last element (no further '.' and no separator in it), and it is "" exactly when every '.' of the path is followed by a separator |
| `Paths.ExtIsM3u8Iff` | main.go:60 | `filepath.Ext(path) == ".m3u8"` holds exactly when the path ends in ".m3u8" |
| `Paths.LastElement` | main.go:154 | returns the longest separator-free suffix: a suffix with no separator, preceded by a separator unless it is the whole input |
| `Paths.TrimTrailingSeparators` | main.go:154 | returns a prefix that does not end in a separator; only separators were dropped |
| `Paths.Base` | main.go:154 | Base is never empty; it is "." for the empty input; for input that is only separators it is the separator; otherwise, once trailing separators are dropped, it is the whole last element: a separator-free suffix preceded by a separator or the start |
| `Paths.BaseOfDirectory` | main.go:154 | the Base of "dir/elem/" is elem: trailing separators are dropped before the last element is taken |
| `Paths.BaseOfJoin` | main.go:154 | the Base of "dir/file" is the file, for any non-empty separator-free file |
| `Naming.Title` | main.go:61 | the title plus ".m3u8" is the file name when the name ends in ".m3u8"; otherwise the title is the file name itself |
| `Naming.LocalPath` | main.go:168 | "videos/<name>/<file>" starts with "videos/"; removing that prefix leaves "<name>/<file>" |
| `Naming.BaseURL` | main.go:160 | the origin starts with "<scheme>://", and removing that leaves the host |
| `Naming.SegmentURL` | main.go:222 | the segment URL starts with "<origin>/<title>/", and removing that leaves the segment URI |
| `Naming.PlaybackURL` | main.go:126-127 | the playback URL starts with "http://<host>/", and removing that leaves the catalog path with one leading "videos/" removed |
| `Naming.PlaybackStripsOnePrefix` | main.go:126-127 | for "videos/"+rest the playback URL is "http://host/"+rest, even when rest starts with "videos/" again; other paths are appended unchanged |
| `Naming.PlaybackOfLocalPath` | main.go:126-127 | the playback URL of "videos/<name>/<file>" is "http://<host>/<name>/<file>" |
| `Catalog.FindPath` | main.go:115 | finds nothing exactly when the title is not among the row titles; a path it finds belongs to a row with that title |
| `Catalog.GuardedInsert` | main.go:64-73 | the old rows are a prefix of the result; at most one row is added; a row is added exactly when the title was absent and the insert did not fail; the added row is (title, path) |
| `Catalog.Store.Exists` | main.go:85-92 | true exactly when some row carries this exact title |
| `Catalog.Store.Insert` | main.go:65 | the bare INSERT appends (title, path) when the database reports no error, and otherwise changes nothing |
| `Catalog.Store.InsertUnlessExists` | main.go:171-180 | the shared check-then-insert block (also main.go:64-73): keeps titles unique; reports "already present" exactly when the title existed; the rows become GuardedInsert of the old rows; afterwards the title exists unless the insert failed, and a new title finds its path |
| `Catalog.Store.Lookup` | main.go:114-124 | a database fault gives LookupFailed; an absent title gives NotFound; otherwise it gives Found(p) exactly for the row (title, p) |
| `Catalog.Store.ListTitles` | main.go:260-275 | the scan stops where rows.Next() stops (the row where the driver fails, or the end); a list is yielded exactly when the query and the scan of every row before that point succeed; the list is the titles of exactly those rows, in row order, and all titles when the driver does not fail; with unique titles, no title appears twice |
| `Catalog.Store.ListTitlesChecked` | main.go:260-275 | the listing with the missing rows.Err() check added: a list is yielded exactly when the query, the scan of every row and every rows.Next() call succeed, the last call (the one that reports the end) included; the list is then every title in row order |
| `Catalog.FindPathAppend` | main.go:65 | appending a row leaves the lookup of every earlier title alone; a new title finds the appended row's path |
| `Catalog.LookupUnique` | main.go:115 | with unique titles a title names at most one path |
| `Catalog.GuardedInsertKeepsUnique` | main.go:64-73 | insert-unless-exists keeps titles unique |
| `Catalog.GuardedInsertRegisters` | main.go:171-176 | a guarded insert that does not fail leaves its title cataloged, whether it was present before or not |
| `Catalog.LookupAfterGuardedInsert` | main.go:171-180 | after a guarded insert the new title finds the inserted path; every other lookup is unchanged |
| `Catalog.GuardedInsertIdempotent` | main.go:171-180 | a second guarded insert of a title already inserted changes nothing, whatever its path and whether it fails |
| `Catalog.TruncatedListingOmitsTitle` | main.go:268-275 | when rows.Next() fails before row n, the title of row n is cataloged but missing from the listing |
| `Sync.SyncStep` | main.go:60-74 | one visit only ever appends rows |
| `Sync.IsPlaylist` | main.go:60 | the walk's playlist test `filepath.Ext(path) == ".m3u8"` holds exactly when the path ends in ".m3u8" |
| `Sync.SyncRows` | main.go:55-76 | the sync only appends: the rows present before it are a prefix of the rows after it |
| `Sync.WalkEnd` | main.go:55-58 | the walk reaches exactly the entries before the first walk error |
| `Sync.VisitEntry` | main.go:55-76 | the walk callback: it reports an error exactly for a walk error; it keeps titles unique; the rows become SyncStep of the old rows |
| `Sync.Run` | main.go:55-80 | the walk loop: titles stay unique; the rows become SyncRows over the entries before the first walk error; the sync succeeds exactly when there is no walk error |
| `Sync.SyncKeepsUnique` | main.go:64-73 | the sync keeps titles unique |
| `Sync.SyncAddsOnlyDiscovered` | main.go:60-62 | every added row is (title without ".m3u8", slash-normalised path) of some visited entry whose extension is ".m3u8" |
| `Sync.SyncStepRegisters` | main.go:64-70 | a visit of a ".m3u8" entry whose insert does not fail leaves its title cataloged |
| `Sync.SyncRegisters` | main.go:60-70 | every visited ".m3u8" entry whose own insert did not fail ends up cataloged; later failures do not remove it |
| `Sync.SyncOfCatalogedIsNoOp` | main.go:64-73 | when every playlist title of the walk is already cataloged, the sync adds nothing |
| `Sync.SyncIdempotent` | main.go:55-76 | after a sync with no insert failures, a second sync over the same entries adds nothing, whatever the database does the second time |
| `Sync.ToSlashIsIdentity` | main.go:62 | on the Unix build ToSlash leaves the path as it is |
| `Sync.LocalPathIsPlaylist` | main.go:60 | the walk treats "videos/<name>/<file>" as a playlist whenever the file name ends in ".m3u8" |
| `Sync.SyncFindsMirroredPlaylist` | main.go:60-64 | the walk rediscovers a mirrored "videos/<name>/<file>.m3u8" under the same title and path the mirror registered, so it leaves the mirror's row alone |
| `Mirror.SegmentURIs` | main.go:219-220 | no more URIs than entries; every kept URI is non-empty |
| `Mirror.PlaylistFile` | main.go:154 | the file name is never empty; for a URL not ending in a separator it is the whole last element of the URL |
| `Mirror.MirrorName` | main.go:162 | the title is the file name without a trailing ".m3u8", or the file name itself when it has none |
| `Mirror.MirrorPath` | main.go:168 | the catalog path starts with "videos/", and removing that leaves "<title>/<file name>" |
| `Mirror.Transfers` | main.go:221-222 | one transfer per URI, in order; URI k is fetched from origin/<name>/<uri> and saved at videos/<name>/<uri> |
| `Mirror.Plan` | main.go:217-222 | a playlist that is not a media playlist plans nothing; a media playlist plans one transfer per usable segment, in order, fetched from origin/<title>/<uri> and saved at videos/<title>/<uri> |
| `Mirror.DownloadSegments` | main.go:219-245 | the completed transfers are a prefix of the plan and none of them failed; there is no fault exactly when the whole plan completed; otherwise the fault is that of the first transfer not completed |
| `Mirror.SegmentURIsAppend` | main.go:219-220 | filtering a concatenation gives the concatenation of the filtered parts, so document order is kept |
| `Mirror.SegmentURIsSingle` | main.go:220 | one entry is kept exactly when it is usable: non-nil with a non-empty URI |
| `Mirror.SegmentURIsMembers` | main.go:219-220 | a URI is planned exactly when some entry is non-nil and carries it non-empty |
| `Mirror.SegmentURIsExample` | main.go:219-220 | the entries [a, nil, "", b], with a and b non-empty, keep [a, b] |
| `Mirror.PlanExample` | main.go:217-222 | the plan of the media playlist [a, nil, "", b] is exactly two transfers, a then b; each is fetched from origin/<name>/<uri> and saved at videos/<name>/<uri> |
| `Mirror.SegmentURLExample` | main.go:222 | with origin https://cdn.example and title "index", seg0.ts is fetched from https://cdn.example/index/seg0.ts; the playlist's remote directory plays no part |
| `Mirror.MirrorNaming` | main.go:154-168 | for the URL "dir/file", the file name is file; the title is file without a trailing ".m3u8", or file itself when it has none; the catalog path is "videos/<title>/<file>" |
| `Mirror.MirrorOfPlaylistFile` | main.go:162-168 | "dir/<name>.m3u8" is mirrored under the title name, at videos/<name>/<name>.m3u8 |
| `Handlers.VideoLink` | main.go:94-132 | non-POST gives 405; an undecodable body or empty title gives 400; an uncataloged title gives 404; another lookup error gives 500; otherwise the answer is the playback URL of the cataloged path |
| `Handlers.AllVideos` | main.go:253-283 | non-GET gives 405; a failed query, or a failed scan of a row the loop reaches, gives 500; otherwise the answer is the titles of the rows before the point where rows.Next() stopped, in row order, with no title twice: every cataloged title unless the driver failed mid-scan |
| `Handlers.SaveMirror` | main.go:181-246 | completes exactly when the playlist transfer, read-back, decoding and every planned segment succeed; the saved files are a prefix of playlist-then-segments, and all of them on completion; the playlist is saved exactly when its transfer succeeds; only the playlist is saved when read-back or decoding fails; otherwise the segments saved are exactly those before the first failing segment transfer |
| `Handlers.Download` | main.go:135-250 | 405 and 400 as in the request checks; when the URL parses and the directory is created, the title is registered by guarded insert before any download, and otherwise the catalog is unchanged and nothing is saved; the success reply comes exactly when every step succeeds, and any later failure leaves no reply; the saved files stop exactly where the mirror failed, as for SaveMirror |
| `Handlers.MirrorThenLink` | main.go:171-183 | a mirror of a new title appends exactly the row (title, mirror path) before anything is downloaded, so the link handler then answers with the playback URL of that path, even if the download failed |
| `Handlers.PlaybackOfMirror` | main.go:126-127 | the mirror of "dir/<name>.m3u8" plays back from http://<host>/<name>/<name>.m3u8 |

## Left out

- HTTP routing, the static file server, JSON encoding and decoding, response headers and the CORS wrapper `addHeaders`. These are plumbing over `net/http`. A body that does not decode is an absent request field.
- Opening the database and creating the table (`log.Fatal` at main.go:45-53). These are driver setup.
- Catalog.Store.Exists: never fails. A query error in `FileExistsByTitle` ends the process (`log.Fatalf`), which is outside the model.
- SQL text and the driver. The table is a sequence of rows, and row order stands for the order the driver returns.
- Network and filesystem effects. `http.Get`, `os.Create`, `io.Copy`, `os.MkdirAll` and `ioutil.ReadFile` are each one success-or-fault input. File contents are not modelled, and neither is the truncated file left by a failed copy. `saved` lists only completely written files.
- HTTP status codes of fetched files. `http.Get` returns no error for a non-2xx status, and main.go:183-201 and main.go:223-241 never check `resp.StatusCode`, so an error page is saved as the playlist or segment and counts as a success. `FetchFailed` stands only for a transport error.
- `m3u8.DecodeFrom` and `url.Parse`. These are foreign library calls, so their results are inputs.
- Path cleaning by `filepath.Join`, for example `..` or an empty title. Joins are plain `/` concatenation.
- Windows builds: volume names and the `\` separator. The model is the Unix build.
- Handlers.Download: `Unanswered` stands for "the handler wrote nothing". `net/http` then sends an empty 200, which is outside the model.
- Handlers.AllVideos: an empty catalog encodes as JSON `null` in Go, not `[]`, because the title slice is nil. JSON is outside the model.
- Logging and `fmt` output, flag parsing, and `main`.
- Concurrent handlers and races between simultaneous mirrors of the same title. The model runs one operation at a time.

## Findings

| source | as written | input that shows it | evidently intended | confidence | as-written member | corrected member |
|---|---|---|---|---|---|---|
| main.go:268-282 | the listing loop ends when `rows.Next()` returns false and `rows.Err()` is never consulted, so a driver failure mid-scan is answered with 200 and the titles read so far | a catalog of three rows whose `rows.Next()` fails before the third row: the answer lists only the first two titles, and the third cataloged title is missing | check `rows.Err()` after the loop and answer 500 | not executed | `Catalog.TruncatedListingOmitsTitle` | `Catalog.Store.ListTitlesChecked` |

`Handlers.AllVideos` keeps modelling the handler as written, on top of
`Catalog.Store.ListTitles`. `Catalog.Store.ListTitlesChecked` is the same
scan followed by the missing check.
