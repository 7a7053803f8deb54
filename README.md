# A verified model of the ygs file server

ygs ("you got served") is a small development HTTP server. This project models its core,
`internal/fileserver/fileserver.go`, in Dafny and proves properties of the model. The core
has three parts:

- **Dynamic endpoints.** A `POST` under `/dyn/` stores the request body in a fresh temp file
  and registers the path. Later `GET`/`HEAD` requests on the path return the stored bytes. A
  `PUT` replaces them with a new temp file. `TurnDownServer` removes the temp files when the
  process exits.
- **Content type.** A dynamic read picks its Content-Type from the extension of the last
  path segment.
- **Static files.** `GET /file/{path}` joins the served root and the segment, refuses
  dotfiles unless they are allowed, and streams the file in 1 MiB chunks.

The model has five modules, one file each:

- `common.dfy` (`Common`): bytes and an `Option` type. `None` stands for a Go call that
  returned an error.
- `tempfiles.dfy` (`TempFiles`): the OS temp directory as a class, `TempDir`.
  - It holds the files that exist and their bytes, the names removed so far, and a counter
    that hands out fresh names.
  - `TempFile`, `Copy`, `Remove` and `ReadAll` stand for `ioutil.TempFile`, `io.Copy`,
    `os.Remove` and `Seek` + `ioutil.ReadAll`.
- `contenttype.dfy` (`ContentType`): `strings.Split` and its inverse `Join`, the extension
  the read handler switches on, and the four-entry table.
- `staticfiles.dfy` (`StaticFiles`):
  - the path join, both as written and as intended;
  - the dotfile guard;
  - the read/write loop on an `array<byte>` file with a reused buffer.
- `server.dfy` (`FileServer`): the `Server` class with its registry, the request handlers,
  the handler-bound `DynFile` objects, and the two shutdowns (as written and corrected).

The central design point is aliasing. `dynCreateHandler` appends a COPY of the local
`dynFile` value to `fs.files`, and binds the read and update handlers to the LOCAL VARIABLE.
An update reassigns that variable's `File`, so reads see the new bytes. The copy in
`fs.files` keeps naming the temp file the endpoint was created with, so `TurnDownServer`,
which walks the copies, leaves every updated endpoint's current temp file behind.

In the model:

- `Server.files` is a `seq<Entry>` of value copies.
- `Server.routes` maps each registered path to the `DynFile` object its handlers share.
  `DynFile.Update` reassigns that object's `file` field.
- The invariant `Server.Valid()` ties these together through ghost state:
  - `index`: each path's position in `files`;
  - `cur`: the store each entry's handlers currently use;
  - `owner`: the position each current store belongs to.
  The temp files that exist are exactly the current stores, one per entry.

Decisions:

- Whether the OS can create a temp file is a boolean parameter `available`.
- Temp-file names are numbers handed out by a counter, so each is fresh.
- A request on a dynamic path that has no route yields `None`.
- The static directory is a map from full paths to byte arrays.

## Model

| member | source | states |
|---|---|---|
| TempFiles.TempDir.TempFile | internal/fileserver/fileserver.go:206-212 | succeeds iff the OS can create a file; on success a fresh, empty file under an unused name is added and nothing else changes; on failure nothing changes |
| TempFiles.TempDir.Copy | internal/fileserver/fileserver.go:214 | the body is appended to the named temp file; no other file or name changes |
| TempFiles.TempDir.Remove | internal/fileserver/fileserver.go:243 | the named file no longer exists and is recorded as removed if it existed; removing a missing name changes nothing |
| TempFiles.TempDir.ReadAll | internal/fileserver/fileserver.go:163-164 | returns the whole content of the temp file iff it exists, an error otherwise |
| TempFiles.TempDir.constructor | internal/fileserver/fileserver.go:206 | the temp directory starts with no files of the server's and nothing removed |
| ContentType.Split | internal/fileserver/fileserver.go:166-169 | `strings.Split` with a one-character separator: at least one piece, no piece contains the separator, and joining the pieces with the separator gives back the input |
| ContentType.LastPiece | internal/fileserver/fileserver.go:166-169 | the last element of the split of a string on one separator |
| ContentType.Extension | internal/fileserver/fileserver.go:166-169 | the last `.`-piece of the last `/`-segment of the request path |
| ContentType.ContentTypeOf | internal/fileserver/fileserver.go:171-182 | the Content-Type for an extension: text/html, application/json, application/xml or application/pdf for html, json, xml and pdf, text/plain for anything else |
| ContentType.SplitWithoutSep | internal/fileserver/fileserver.go:166-169 | a string without the separator splits into itself alone |
| ContentType.SplitLastAfterSep | internal/fileserver/fileserver.go:166-169 | the last piece of `s + sep + t` is `t` when `t` has no separator |
| ContentType.LastPieceIsSuffix | internal/fileserver/fileserver.go:166-169 | the last piece has no separator; it is the whole string when the string has none, and otherwise it is exactly the text after some separator occurrence |
| ContentType.ContentTypeOfNamedFile | internal/fileserver/fileserver.go:166-182 | for a request path ending in `/name.ext`, the extension is `ext`, and html, json, xml and pdf get their MIME types while every other extension gets text/plain |
| ContentType.ContentTypeOfDotlessName | internal/fileserver/fileserver.go:166-182 | a last segment without a dot is its own extension, so `/dyn/json` is served as application/json |
| StaticFiles.ByteLenVsRunes | internal/fileserver/fileserver.go:83 | the UTF-8 byte length of a string is at least its rune count, with equality iff the string is ASCII |
| StaticFiles.ResolvePath | internal/fileserver/fileserver.go:83-89 | the resolved path is the root followed by the segment, with a `/` between them exactly when the segment does not already end in `/` |
| StaticFiles.ResolveAsWrittenAgrees | internal/fileserver/fileserver.go:83-89 | the join as written returns a path iff the segment is ASCII, and then the one the intended join gives; any non-ASCII segment panics |
| StaticFiles.LastRuneAsWritten | internal/fileserver/fileserver.go:83 | the rune the code reads as the segment's last: the one at the byte length minus one, or the index panic when that is past the last rune |
| StaticFiles.ResolveAsWritten | internal/fileserver/fileserver.go:82-89 | the join as written: no `/` added when that rune is `/`, one added otherwise, and the panic when the rune index is out of range |
| StaticFiles.Blocked | internal/fileserver/fileserver.go:93 | a segment is refused exactly when its first byte is `.` and dotfiles are not allowed |
| StaticFiles.NonAsciiNamePanics | internal/fileserver/fileserver.go:83 | the request `/file/café.txt` panics at the rune index |
| StaticFiles.ReadAt | internal/fileserver/fileserver.go:124-126 | a seek and a read copy the next min(buffer, remaining) bytes of the file into the front of the buffer, and report that count |
| StaticFiles.NextChunk | internal/fileserver/fileserver.go:124-134 | one loop turn reads min(1 MiB, remaining) bytes at the offset and yields exactly those bytes of the file as the next write |
| StaticFiles.ChunkStep | internal/fileserver/fileserver.go:128-134 | writing the next chunk after a prefix of the file extends the written bytes to the longer prefix |
| StaticFiles.Stream | internal/fileserver/fileserver.go:119-136 | the writes concatenate to the whole file; they number length / 1 MiB + 1; every write but the last is a full 1 MiB; the last is shorter, and empty when the length is a multiple of 1 MiB |
| FileServer.Server.FileHandler | internal/fileserver/fileserver.go:81-136 | the path is joined as written, so a non-ASCII segment panics before the dotfile test; an ASCII dotfile segment is refused with 404 iff dotfiles are off; otherwise a path missing from the directory is a 404, and a present one is served as chunked writes that add up to the file's bytes |
| FileServer.FileResponse.Status | internal/fileserver/fileserver.go:93-106 | 200 for a served file, 404 for a refused or missing one, and no status line at all after a panic |
| FileServer.Server.constructor | internal/fileserver/fileserver.go:18-25 | a new server keeps its port, root and dotfile flag, and starts with no endpoints, no routes and no temp files, satisfying the registry invariant |
| FileServer.ConsistentPathsDistinct | internal/fileserver/fileserver.go:197-220 | under the registry invariant, no two entries of `files` share a URL path |
| FileServer.Server.PathsDistinct | internal/fileserver/fileserver.go:197-220 | every reachable server state, which satisfies `Valid()`, has pairwise distinct registry paths |
| FileServer.ConsistentRegistered | internal/fileserver/fileserver.go:197-204 | a path has a route iff the scan over `files` finds an entry with that path |
| FileServer.Server.IsRegistered | internal/fileserver/fileserver.go:197-204 | the duplicate scan answers true iff some entry of `files` has the request path |
| FileServer.CreateKeepsConsistent | internal/fileserver/fileserver.go:214-220 | appending an entry for a new path with a fresh store keeps the registry invariant |
| FileServer.UpdateKeepsConsistent | internal/fileserver/fileserver.go:242-244 | moving one entry's current store to a fresh one, with the old one removed and the copies untouched, keeps the registry invariant |
| FileServer.NamesUpdate | internal/fileserver/fileserver.go:242-244 | when an entry's current store is replaced by a fresh name, the set of current stores loses the old one and gains the new one |
| FileServer.Server.StoreBody | internal/fileserver/fileserver.go:206-214 | with a temp file available, a fresh name is added to the directory holding exactly the body and nothing else changes; without one, the directory is untouched |
| FileServer.Server.Create | internal/fileserver/fileserver.go:193-227 | 405 for a path already registered and 500 without a temp file, both leaving everything unchanged; otherwise 200: exactly one entry is appended, a fresh handler object is routed at the path, the body is stored in a new temp file, and a read of the path returns it |
| FileServer.Server.Record | internal/fileserver/fileserver.go:216-220 | the copy of the new endpoint is appended to `files` and the routes are untouched |
| FileServer.Server.Route | internal/fileserver/fileserver.go:222-223 | the recorded path's handlers are routed to the given object and the server is consistent again |
| FileServer.Server.AddRoute | internal/fileserver/fileserver.go:216-223 | registers the path: `files` gets one entry naming the new store, and the path's route is a fresh object bound to that store |
| FileServer.DynFile.constructor | internal/fileserver/fileserver.go:216-219 | the endpoint variable holds the request path and the new temp file |
| FileServer.DynFile.Read | internal/fileserver/fileserver.go:160-190 | the Content-Type is the table's type for the request path; the status is 200 with the whole current store iff that store exists, else 404 with no body |
| FileServer.Server.Get | internal/fileserver/fileserver.go:163-189 | a read of a registered path is answered 200 with the path's content type and exactly the current bytes stored for it; an unregistered path has no dynamic handler |
| FileServer.DynFile.Update | internal/fileserver/fileserver.go:229-246 | on its own path: 500 and nothing changes without a temp file; otherwise the body goes to a fresh temp file, the old one is removed and the variable names the new one; on another path nothing changes |
| FileServer.Server.Put | internal/fileserver/fileserver.go:234-245 | an update of a registered path keeps `files` and the routes; a path with no route gets no dynamic answer and nothing changes; without a temp file the answer is 500 and nothing changes, so every path reads as before; a 200 makes later reads return the new body, the temp directory loses exactly the old store and gains exactly the new one holding the body, the removed set grows by the old store, the registry copy still names the original store, and no other path's bytes change |
| FileServer.Server.ReplaceStore | internal/fileserver/fileserver.go:234-245 | a successful update: the temp directory is the old one without the old store and with the new store holding the body, the removed set grows by the old store, the registry copy is unchanged, every other path's bytes are unchanged |
| FileServer.Server.SwapStore | internal/fileserver/fileserver.go:236-244 | the handler's variable moves to a fresh store holding the body, the old store is removed, and no other path's handler or stored bytes change |
| FileServer.OtherStoresKept | internal/fileserver/fileserver.go:242-244 | replacing one entry's current store by a fresh one leaves the bytes of every other entry's store as they were |
| FileServer.Server.Rebind | internal/fileserver/fileserver.go:243-244 | after the handler variable moves to its new store, the server is consistent with that position's current store updated |
| FileServer.InStores | internal/fileserver/fileserver.go:251-254 | a name is among the stores TurnDownServer visits iff some copy in `files` names it |
| FileServer.InNames | internal/fileserver/fileserver.go:251-254 | a name is among the current stores iff some entry's current store is that name |
| FileServer.RemoveCopies | internal/fileserver/fileserver.go:251-254 | the shutdown loop removes exactly the stores the copies in `files` name |
| FileServer.Server.TurnDownServer | internal/fileserver/fileserver.go:250-255 | shutdown as written removes exactly the stores the registry copies name; every path whose handlers moved off their original store keeps its current temp file on disk |
| FileServer.UpdatedStoreNotInCopies | internal/fileserver/fileserver.go:220-244 | an entry's current store is among the names the copies in `files` hold iff it is still the store the entry was created with |
| FileServer.CreateThenUpdate | internal/fileserver/fileserver.go:214-244 | on a fresh server, creating `/dyn/a` with [1] and updating it with [2] leaves one entry, whose path now reads [2] from a store that no copy names |
| FileServer.StrayPut | internal/fileserver/fileserver.go:222-246 | after creating `/dyn/a` with [1], a PUT on the unregistered `/dyn/x` adds no route and `/dyn/a` still reads [1] |
| FileServer.LeakAfterUpdate | internal/fileserver/fileserver.go:250-255 | after that create, update and shutdown, the temp file holding [2] still exists |
| FileServer.CurrentStoresCoverAll | internal/fileserver/fileserver.go:250-255 | a copy in `files` whose store still exists names its entry's current store |
| FileServer.RemoveCurrent | internal/fileserver/fileserver.go:251-254 | the corrected loop removes exactly the store each entry's handlers currently use |
| FileServer.Server.RemoveAllStores | internal/fileserver/fileserver.go:250-255 | the corrected shutdown removes every current store, and the temp directory is empty afterwards: no temp file the server wrote is left |

## Left out

- Routing by gorilla/mux (lines 32-48) is not modelled. A request on a dynamic path without a route is `None`, not mux's 404 or 405 answer.
- A registered path is matched literally. mux would read `{...}` in a POSTed path as a pattern variable.
- StaticFiles.ResolvePath: its trailing-`/` branch is modelled as written but cannot be reached through the router. The `{path}` variable matches only non-empty text without `/`.
- `Start` (lines 58-69) is left out: the listener, the timeouts and `log.Fatal` on its error.
- The root and not-found handlers are left out, as are `echoHandler` (lines 141-158), all logging and `cmd/serve.go`.
- FileServer.DynFile.Read: a read fails with 404 when its store's name is gone. The source reads through the open `*os.File`, which stays readable after `os.Remove` of its name. Under `Server.Valid()` a routed store always exists, so this case is never reached from the server.
- FileServer.Server.FileHandler omits the 512-byte `DetectContentType` read and the Content-Type it sets (lines 107-114).
- FileServer.Server.FileHandler omits the Content-Length header from `Stat` (lines 116-117).
- FileServer.Server.FileHandler: when reading a file fails, for example because it is empty, the source calls `log.Fatal` at line 110 and the process exits. The model serves an empty file as one empty write.
- FileServer.Server.FileHandler: `os.Open` is a lookup in a map of byte arrays. Permissions, directories and files that change during a read are not modelled.
- `io.Copy` errors are ignored by the source and not modelled: the whole body is always stored. The request body is given as bytes.
- Temp-file names are a counter that only grows. Names are not random and never collide with files outside the server.
- Concurrency is not modelled: `net/http` runs handlers at the same time over shared `fs.files` without locking. Every request runs to completion, one after another.
- Strings are sequences of Unicode scalar values. Invalid UTF-8 in a request path is not modelled.
- A Go panic is an absent result (`None`), not a closed connection.

## Findings

| source | as written | input that shows it | evidently intended | confidence | as-written member | corrected member |
|---|---|---|---|---|---|---|
| internal/fileserver/fileserver.go:83 | the rune slice of the path segment is indexed with the segment's byte length minus one | `GET /file/café.txt`: 8 runes and 9 bytes, so index 8 is out of range and the handler panics | test the segment's last character | not executed | StaticFiles.ResolveAsWritten, StaticFiles.NonAsciiNamePanics | StaticFiles.ResolvePath, StaticFiles.ResolveAsWrittenAgrees |
| internal/fileserver/fileserver.go:250-255 | shutdown removes the temp files the copies in `fs.files` name, but an update (lines 243-244) changes only the handler-bound variable | `POST /dyn/a`, `PUT /dyn/a`, then shutdown: the second temp file stays in the temp directory | remove each endpoint's current temp file | not executed | FileServer.Server.TurnDownServer, FileServer.LeakAfterUpdate | FileServer.Server.RemoveAllStores |
