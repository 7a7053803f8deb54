/**
 * The server (internal/fileserver/fileserver.go): its configuration, the
 * registry of dynamic endpoints and the handlers behind them.
 *
 * A dynamic endpoint exists twice. `Server.files` holds a COPY of each
 * `dynFile` value (an `Entry`), while the router's GET and PUT handlers for the
 * path are bound to the original variable (a `DynFile` object, kept here in
 * `routes`). An update reassigns the object's `file`, so readers see the new
 * store, but the copy in `files` goes on naming the store it was created with.
 */
module FileServer {
  import opened Common
  import opened TempFiles
  import ContentType
  import StaticFiles

  /** A `dynFile` value as copied into `Server.files`. */
  datatype Entry = Entry(urlPath: string, file: Name)

  /** What a dynamic read writes: status, Content-Type header and body. */
  datatype DynResponse = DynResponse(status: int, contentType: string, body: seq<byte>)

  /** What the static file handler answers. */
  datatype FileResponse =
    | Panicked                                 // index out of range at the path join
    | Refused                                  // dotfile guard, before any open
    | Missing(path: string)                    // `os.Open` failed
    | Served(path: string, writes: seq<seq<byte>>)
  {
    /** The status line written; a panic writes none (net/http drops the connection). */
    function Status(): Option<int> {
      if Panicked? then None else if Served? then Some(200) else Some(404)
    }
  }

  // ---------------------------------------------------------------------------
  // The registry on values.

  /** Some entry of the registry has URL path `p`: what the duplicate scan looks for. */
  ghost predicate Registered(files: seq<Entry>, p: string) {
    exists i :: 0 <= i < |files| && files[i].urlPath == p
  }

  /** The stores the copies in `files` name: what TurnDownServer removes. */
  function Stores(files: seq<Entry>): set<Name> {
    if files == [] then {} else Stores(files[..|files| - 1]) + {files[|files| - 1].file}
  }

  /** The names in a sequence of stores. */
  function Names(s: seq<Name>): set<Name> {
    if s == [] then {} else Names(s[..|s| - 1]) + {s[|s| - 1]}
  }

  /**
   * The registry's invariant, on values. `index` gives each registered path's
   * position in `files`; `cur[i]` is the store the handlers of entry `i`'s path
   * currently use and `owner` maps it back to `i`; `live` holds the temp files
   * that exist and `removed` the names removed so far.
   */
  ghost predicate Consistent(files: seq<Entry>, index: map<string, nat>, cur: seq<Name>,
                             owner: map<Name, nat>, live: set<Name>, removed: set<Name>) {
    |cur| == |files| &&
    // each registered path has exactly one entry
    (forall p :: p in index ==> index[p] < |files| && files[index[p]].urlPath == p) &&
    // each entry is its path's, its current store is a distinct temp file that
    // exists, and its copy names that store or one an update removed
    (forall i :: 0 <= i < |files| ==>
       files[i].urlPath in index && index[files[i].urlPath] == i &&
       cur[i] in live && cur[i] in owner && owner[cur[i]] == i &&
       (files[i].file == cur[i] || files[i].file in removed)) &&
    // the temp files that exist are exactly the current stores
    live == Names(cur)
  }

  /** The registry never holds two entries with the same URL path. */
  lemma ConsistentPathsDistinct(files: seq<Entry>, index: map<string, nat>, cur: seq<Name>,
                                owner: map<Name, nat>, live: set<Name>, removed: set<Name>)
    requires Consistent(files, index, cur, owner, live, removed)
    ensures forall i, j :: 0 <= i < j < |files| ==> files[i].urlPath != files[j].urlPath
  {
  }

  /** The paths with a route are exactly the paths the duplicate scan finds. */
  lemma ConsistentRegistered(files: seq<Entry>, index: map<string, nat>, cur: seq<Name>,
                             owner: map<Name, nat>, live: set<Name>, removed: set<Name>, p: string)
    requires Consistent(files, index, cur, owner, live, removed)
    ensures p in index <==> Registered(files, p)
  {
    if Registered(files, p) {
      var i :| 0 <= i < |files| && files[i].urlPath == p;
    }
  }

  /** A create at a new path with a fresh store appends one entry and keeps the invariant. */
  lemma CreateKeepsConsistent(files: seq<Entry>, index: map<string, nat>, cur: seq<Name>,
                              owner: map<Name, nat>, live: set<Name>, removed: set<Name>, path: string, n: Name)
    requires Consistent(files, index, cur, owner, live, removed)
    requires path !in index && n !in live
    ensures Consistent(files + [Entry(path, n)], index[path := |files|], cur + [n], owner[n := |files|],
                       live + {n}, removed)
  {
    assert (cur + [n])[..|cur|] == cur;
  }

  /**
   * An update of entry `k`'s path to a fresh store, with the old store
   * removed, keeps the invariant; the copies in `files` are not touched.
   */
  lemma UpdateKeepsConsistent(files: seq<Entry>, index: map<string, nat>, cur: seq<Name>,
                              owner: map<Name, nat>, live: set<Name>, removed: set<Name>, k: nat, n: Name)
    requires Consistent(files, index, cur, owner, live, removed)
    requires k < |files| && n !in live
    ensures Consistent(files, index, cur[k := n], owner[n := k], live - {cur[k]} + {n}, removed + {cur[k]})
  {
    NamesUpdate(cur, owner, k, n);
  }

  /** Replacing one of a sequence of distinct names by a new one replaces it in the set. */
  lemma NamesUpdate(cur: seq<Name>, owner: map<Name, nat>, k: nat, n: Name)
    requires k < |cur| && n !in Names(cur)
    requires forall i :: 0 <= i < |cur| ==> cur[i] in owner && owner[cur[i]] == i
    ensures Names(cur[k := n]) == Names(cur) - {cur[k]} + {n}
  {
    var c := cur[k := n];
    InNames(cur, cur[k]);
    forall x ensures x in Names(c) <==> x in Names(cur) - {cur[k]} + {n} {
      InNames(c, x);
      InNames(cur, x);
      if x == n {
        assert c[k] == n;
      }
      if x in Names(c) && x != n {
        var i :| 0 <= i < |c| && c[i] == x;
        assert i != k && cur[i] == x && owner[cur[i]] == i;
      }
      if x in Names(cur) && x != cur[k] {
        var i :| 0 <= i < |cur| && cur[i] == x;
        assert i != k && c[i] == x;
      }
    }
  }

  lemma {:induction false} InStores(files: seq<Entry>, n: Name)
    ensures n in Stores(files) <==> exists i :: 0 <= i < |files| && files[i].file == n
    decreases |files|
  {
    if files != [] {
      var init := files[..|files| - 1];
      InStores(init, n);
      assert forall i :: 0 <= i < |init| ==> init[i] == files[i];
    }
  }

  lemma {:induction false} InNames(s: seq<Name>, n: Name)
    ensures n in Names(s) <==> exists i :: 0 <= i < |s| && s[i] == n
    decreases |s|
  {
    if s != [] {
      var init := s[..|s| - 1];
      InNames(init, n);
      assert forall i :: 0 <= i < |init| ==> init[i] == s[i];
    }
  }

  /**
   * What TurnDownServer misses: the current store of an endpoint that was
   * updated is named by no copy in `files`, so it is not removed.
   */
  lemma UpdatedStoreNotInCopies(files: seq<Entry>, index: map<string, nat>, cur: seq<Name>,
                                owner: map<Name, nat>, live: set<Name>, removed: set<Name>, k: nat)
    requires Consistent(files, index, cur, owner, live, removed) && live !! removed
    requires k < |files|
    ensures cur[k] in Stores(files) <==> cur[k] == files[k].file
  {
    InStores(files, cur[k]);
    if cur[k] in Stores(files) {
      var i :| 0 <= i < |files| && files[i].file == cur[k];
      assert owner[cur[i]] == i;
    }
  }

  /**
   * What a corrected shutdown relies on besides the current stores: a copy
   * whose store still exists names its entry's current store.
   */
  lemma CurrentStoresCoverAll(files: seq<Entry>, index: map<string, nat>, cur: seq<Name>,
                              owner: map<Name, nat>, live: set<Name>, removed: set<Name>)
    requires Consistent(files, index, cur, owner, live, removed) && live !! removed
    ensures forall i :: 0 <= i < |files| && files[i].file in live ==> files[i].file == cur[i]
  {
  }

  lemma RemoveThenUpdate<K, V>(m: map<K, V>, gone: K, k: K, v: V)
    requires gone != k
    ensures m[k := v] - {gone} == (m - {gone})[k := v]
  {
    assert (m[k := v] - {gone}).Keys == ((m - {gone})[k := v]).Keys;
  }

  /**
   * Replacing the store at position `k` by a fresh one holding `body` keeps
   * the bytes of every other position's store.
   */
  lemma OtherStoresKept(d: map<Name, seq<byte>>, cur: seq<Name>, owner: map<Name, nat>, k: nat, n: Name, body: seq<byte>)
    requires k < |cur| && n !in d
    requires forall i :: 0 <= i < |cur| ==> cur[i] in d && cur[i] in owner && owner[cur[i]] == i
    ensures forall i :: 0 <= i < |cur| && i != k ==>
              cur[i] in (d - {cur[k]})[n := body] && (d - {cur[k]})[n := body][cur[i]] == d[cur[i]]
  {
  }

  /** The loop of TurnDownServer: remove the store each entry names, in order. */
  method RemoveCopies(disk: TempDir, files: seq<Entry>)
    requires disk.Valid()
    modifies disk
    ensures disk.Valid()
    ensures disk.files == old(disk.files) - Stores(files)
  {
    var i := 0;
    while i < |files|
      invariant 0 <= i <= |files|
      invariant disk.Valid()
      invariant disk.files == old(disk.files) - Stores(files[..i])
    {
      disk.Remove(files[i].file);
      assert files[..i + 1][..i] == files[..i];
      assert Stores(files[..i + 1]) == Stores(files[..i]) + {files[i].file};
      i := i + 1;
    }
    assert files[..i] == files;
  }

  /** The corrected loop: remove the store the handlers of each entry's path currently use. */
  method RemoveCurrent(disk: TempDir, files: seq<Entry>, routes: map<string, DynFile>, ghost cur: seq<Name>)
    requires disk.Valid() && |cur| == |files|
    requires forall i :: 0 <= i < |files| ==> files[i].urlPath in routes && routes[files[i].urlPath].file == cur[i]
    modifies disk
    ensures disk.Valid()
    ensures disk.files == old(disk.files) - Names(cur)
  {
    var i := 0;
    while i < |files|
      invariant 0 <= i <= |files|
      invariant disk.Valid()
      invariant disk.files == old(disk.files) - Names(cur[..i])
    {
      disk.Remove(routes[files[i].urlPath].file);
      assert cur[..i + 1][..i] == cur[..i];
      assert Names(cur[..i + 1]) == Names(cur[..i]) + {cur[i]};
      i := i + 1;
    }
    assert cur[..i] == cur;
  }

  // ---------------------------------------------------------------------------
  // The handlers.

  /** The `dynFile` variable the read and update handlers of one endpoint are bound to. */
  class DynFile {
    const urlPath: string
    var file: Name

    constructor (urlPath: string, file: Name)
      ensures this.urlPath == urlPath && this.file == file
    {
      this.urlPath, this.file := urlPath, file;
    }

    /** dynReadHandler: the whole current store, typed by the request path's extension. */
    method Read(reqPath: string, disk: TempDir) returns (r: DynResponse)
      ensures r.contentType == ContentType.ContentTypeOf(reqPath)
      ensures r.status == 200 <==> file in disk.files
      ensures r.status == 200 ==> r.body == disk.files[file]
      ensures r.status != 200 ==> r.status == 404 && r.body == []
    {
      var buf := disk.ReadAll(file);
      var contentType := ContentType.ContentTypeOf(reqPath);
      if buf.None? {
        return DynResponse(404, contentType, []);
      }
      r := DynResponse(200, contentType, buf.value);
    }

    /**
     * dynUpdateHandler: on the endpoint's own path, write the body to a new
     * temp file, remove the old one and point the handlers at the new one.
     */
    method Update(reqPath: string, body: seq<byte>, disk: TempDir, available: bool) returns (status: int)
      requires disk.Valid() && file < disk.next
      modifies this, disk
      ensures disk.Valid() && file < disk.next
      ensures status == if reqPath == urlPath && !available then 500 else 200
      ensures reqPath == urlPath && available ==>
                file == old(disk.next) && old(disk.next) !in old(disk.files) &&
                disk.files == (old(disk.files) - {old(file)})[file := body] &&
                disk.removed == (if old(file) in old(disk.files) then old(disk.removed) + {old(file)}
                                 else old(disk.removed)) &&
                disk.next == old(disk.next) + 1
      ensures !(reqPath == urlPath && available) ==> unchanged(this) && unchanged(disk)
    {
      status := 200;
      if reqPath == urlPath {
        var tmp := disk.TempFile(available);
        if tmp.None? {
          return 500;
        }
        assert file != tmp.value;
        ghost var created := disk.files;
        disk.Copy(tmp.value, body);
        assert created[tmp.value] == [] && [] + body == body;
        assert disk.files == old(disk.files)[tmp.value := body];
        disk.Remove(file);
        RemoveThenUpdate(old(disk.files), file, tmp.value, body);
        file := tmp.value;
      }
    }
  }

  class Server {
    const port: int
    const root: string
    const dotfiles: bool
    /** The temporary directory, which only this server writes to. */
    const disk: TempDir
    /** `fs.files`: copies of the endpoints, in creation order. */
    var files: seq<Entry>
    /** The dynamic routes: each registered path and the variable its handlers are bound to. */
    var routes: map<string, DynFile>
    /** Each registered path's position in `files`. */
    ghost var index: map<string, nat>
    /** For each entry, the store its path's handlers currently use. */
    ghost var cur: seq<Name>
    /** Each current store and the position of its entry. */
    ghost var owner: map<Name, nat>

    ghost predicate Valid()
      reads this, disk, routes.Values
    {
      disk.Valid() &&
      Consistent(files, index, cur, owner, disk.files.Keys, disk.removed) &&
      routes.Keys == index.Keys &&
      (forall p :: p in routes ==> routes[p].urlPath == p && routes[p].file == cur[index[p]])
    }

    /** The bytes a read of the registered path `p` returns. */
    ghost function Stored(p: string): seq<byte>
      requires Valid() && p in routes
      reads this, disk, routes.Values
    {
      disk.files[cur[index[p]]]
    }

    /** The store the entry for `p` in `files` names: the one `p` was created with. */
    ghost function OriginalStore(p: string): Name
      requires Valid() && p in routes
      reads this, disk, routes.Values
    {
      files[index[p]].file
    }

    constructor (port: int, root: string, dotfiles: bool)
      ensures Valid() && fresh(disk)
      ensures this.port == port && this.root == root && this.dotfiles == dotfiles
      ensures files == [] && routes == map[] && disk.files == map[] && disk.removed == {} && disk.next == 0
    {
      this.port, this.root, this.dotfiles := port, root, dotfiles;
      disk := new TempDir();
      files, routes, index, cur, owner := [], map[], map[], [], map[];
    }

    /**
     * fileHandler for the `{path}` segment `seg` of a `/file/` request, with
     * the static directory `dir` given as the files it holds, by full path. The
     * path is joined as written, which panics on a non-ASCII segment; dotfiles
     * are then refused before anything is opened; a file that cannot be opened
     * is a 404; otherwise the whole file is streamed in 1 MiB reads.
     */
    method FileHandler(seg: string, dir: map<string, array<byte>>) returns (r: FileResponse)
      requires |seg| > 0
      ensures r.Panicked? <==> !StaticFiles.IsAscii(seg)
      ensures r == Refused <==> StaticFiles.IsAscii(seg) && StaticFiles.Blocked(seg, dotfiles)
      ensures r.Status() == Some(404) <==>
                StaticFiles.IsAscii(seg) &&
                (StaticFiles.Blocked(seg, dotfiles) || StaticFiles.ResolvePath(root, seg) !in dir)
      ensures r.Missing? ==> r.path == StaticFiles.ResolvePath(root, seg)
      ensures r.Served? ==>
                r.path == StaticFiles.ResolvePath(root, seg) && r.path in dir &&
                StaticFiles.Concat(r.writes) == dir[r.path][..] &&
                StaticFiles.ChunkedAsStreamed(r.writes)
    {
      StaticFiles.ResolveAsWrittenAgrees(root, seg);
      var resolved := StaticFiles.ResolveAsWritten(root, seg);
      if resolved.None? {
        return Panicked;
      }
      var filePath := resolved.value;
      if StaticFiles.Blocked(seg, dotfiles) {
        return Refused;
      }
      if filePath !in dir {
        return Missing(filePath);
      }
      var writes := StaticFiles.Stream(dir[filePath]);
      r := Served(filePath, writes);
    }

    /**
     * The registry never holds two entries for one URL path: the constructor
     * establishes `Valid()` and every request preserves it.
     */
    lemma PathsDistinct()
      requires Valid()
      ensures forall i, j :: 0 <= i < j < |files| ==> files[i].urlPath != files[j].urlPath
    {
      ConsistentPathsDistinct(files, index, cur, owner, disk.files.Keys, disk.removed);
    }

    /** The duplicate scan of dynCreateHandler. */
    method IsRegistered(path: string) returns (dup: bool)
      ensures dup <==> Registered(files, path)
    {
      var i := 0;
      while i < |files|
        invariant 0 <= i <= |files|
        invariant forall j :: 0 <= j < i ==> files[j].urlPath != path
      {
        if files[i].urlPath == path {
          return true;
        }
        i := i + 1;
      }
      return false;
    }

    /**
     * dynCreateHandler: 405 for a path already registered, 500 when no temp
     * file can be made, otherwise store the body and register the path.
     */
    method Create(path: string, body: seq<byte>, available: bool) returns (status: int)
      requires Valid()
      modifies this, disk
      ensures Valid()
      ensures status == if path in old(routes) then 405 else if !available then 500 else 200
      ensures status != 200 ==> files == old(files) && routes == old(routes) && unchanged(disk)
      ensures status == 200 ==>
                files == old(files) + [Entry(path, old(disk.next))] &&
                path in routes && fresh(routes[path]) && routes == old(routes)[path := routes[path]] &&
                routes[path].file == old(disk.next) &&
                disk.files == old(disk.files)[old(disk.next) := body] &&
                disk.removed == old(disk.removed) && Stored(path) == body
    {
      ConsistentRegistered(files, index, cur, owner, disk.files.Keys, disk.removed, path);
      var dup := IsRegistered(path);
      if dup {
        return 405;
      }
      var tmp := StoreBody(body, available);
      if tmp.None? {
        return 500;
      }
      var n := tmp.value;
      CreateKeepsConsistent(files, index, cur, owner, old(disk.files.Keys), disk.removed, path, n);
      var file := AddRoute(path, n);
      status := 200;
    }

    /** The storage half of dynCreateHandler: a new temp file that receives the request body. */
    method StoreBody(body: seq<byte>, available: bool) returns (tmp: Option<Name>)
      requires disk.Valid()
      modifies disk
      ensures disk.Valid()
      ensures tmp.Some? <==> available
      ensures !available ==> unchanged(disk)
      ensures available ==>
                tmp == Some(old(disk.next)) && old(disk.next) !in old(disk.files) &&
                disk.files == old(disk.files)[old(disk.next) := body] &&
                disk.files.Keys == old(disk.files.Keys) + {old(disk.next)} &&
                disk.removed == old(disk.removed)
    {
      tmp := disk.TempFile(available);
      if tmp.Some? {
        ghost var created := disk.files;
        disk.Copy(tmp.value, body);
        assert created[tmp.value] == [] && [] + body == body;
      }
    }

    /** The registration half of dynCreateHandler: record the copy and route the path's handlers. */
    method AddRoute(path: string, n: Name) returns (file: DynFile)
      requires disk.Valid() && routes.Keys == index.Keys && path !in routes
      requires forall p :: p in routes ==> routes[p].urlPath == p && index[p] < |cur| && routes[p].file == cur[index[p]]
      requires Consistent(files + [Entry(path, n)], index[path := |files|], cur + [n], owner[n := |files|],
                          disk.files.Keys, disk.removed)
      modifies this
      ensures Valid()
      ensures files == old(files) + [Entry(path, n)]
      ensures fresh(file) && file.urlPath == path && file.file == n
      ensures routes == old(routes)[path := file]
    {
      Record(path, n);
      file := new DynFile(path, n);
      Route(path, file);
    }

    /** Append the copy for `path` and its ghost bookkeeping. */
    method Record(path: string, n: Name)
      requires path !in index
      modifies this
      ensures files == old(files) + [Entry(path, n)] && routes == old(routes)
      ensures index == old(index)[path := |old(files)|] && cur == old(cur) + [n] && owner == old(owner)[n := |old(files)|]
    {
      files, index, cur, owner := files + [Entry(path, n)], index[path := |files|], cur + [n], owner[n := |files|];
    }

    /** Route the handlers of the recorded path `path` to `file`. */
    method Route(path: string, file: DynFile)
      requires disk.Valid() && Consistent(files, index, cur, owner, disk.files.Keys, disk.removed)
      requires routes.Keys + {path} == index.Keys && path in index && file.urlPath == path && file.file == cur[index[path]]
      requires forall p :: p in routes ==> p != path && routes[p].urlPath == p && routes[p].file == cur[index[p]]
      modifies this
      ensures Valid()
      ensures files == old(files) && routes == old(routes)[path := file]
    {
      ghost var routes0 := routes;
      routes := routes[path := file];
      forall p | p in routes ensures routes[p].urlPath == p && routes[p].file == cur[index[p]] {
        if p != path {
          assert routes[p] == routes0[p];
        }
      }
    }

    /** A GET or HEAD on a dynamic path; `None` when no dynamic route has that path. */
    method Get(path: string) returns (r: Option<DynResponse>)
      requires Valid()
      ensures r.Some? <==> path in routes
      ensures r.Some? ==> r.value == DynResponse(200, ContentType.ContentTypeOf(path), Stored(path))
    {
      if path !in routes {
        return None;
      }
      var resp := routes[path].Read(path, disk);
      r := Some(resp);
    }

    /**
     * A PUT on a dynamic path; `None` when no dynamic route has that path. The
     * registry's copy is left naming the original store.
     */
    method Put(path: string, body: seq<byte>, available: bool) returns (r: Option<int>)
      requires Valid()
      modifies this, disk, if path in routes then {routes[path]} else {}
      ensures Valid()
      ensures files == old(files) && routes == old(routes)
      ensures r.Some? <==> path in routes
      ensures r.None? ==> unchanged(this) && unchanged(disk)
      ensures r.Some? && !available ==> r == Some(500) && unchanged(disk) && unchanged(routes[path])
      ensures r.Some? && available ==>
                r == Some(200) && Stored(path) == body && OriginalStore(path) == old(OriginalStore(path)) &&
                old(routes[path].file) in disk.removed && old(routes[path].file) !in disk.files &&
                disk.files == (old(disk.files) - {old(routes[path].file)})[routes[path].file := body] &&
                disk.removed == old(disk.removed) + {old(routes[path].file)} &&
                (forall q :: q in routes && q != path ==> Stored(q) == old(Stored(q)))
    {
      if path !in routes {
        return None;
      }
      var f := routes[path];
      if !available {
        var status := f.Update(path, body, disk, available);
        assert disk.Valid() && Consistent(files, index, cur, owner, disk.files.Keys, disk.removed);
        forall q | q in routes ensures routes[q].file == old(routes[q].file) {
        }
        return Some(status);
      }
      ReplaceStore(path, body);
      r := Some(200);
    }

    /** dynUpdateHandler behind the registered path `path`, when the temp file can be made. */
    method ReplaceStore(path: string, body: seq<byte>)
      requires Valid() && path in routes
      modifies this, disk, routes[path]
      ensures Valid()
      ensures files == old(files) && routes == old(routes)
      ensures Stored(path) == body && OriginalStore(path) == old(OriginalStore(path))
      ensures old(routes[path].file) in disk.removed && old(routes[path].file) !in disk.files
      ensures disk.files == (old(disk.files) - {old(routes[path].file)})[routes[path].file := body]
      ensures disk.removed == old(disk.removed) + {old(routes[path].file)}
      ensures forall q :: q in routes && q != path ==> Stored(q) == old(Stored(q))
    {
      ghost var cur0 := cur;
      SwapStore(path, body);
      Rebind(path);
      forall q | q in routes && q != path ensures Stored(q) == old(Stored(q)) {
        assert cur[index[q]] == cur0[index[q]];
      }
    }

    /**
     * The handler's own half of ReplaceStore: its variable moves to a fresh
     * store holding `body` and the old store is removed; the ghost binding
     * still names the old store, and no other path's handler or bytes change.
     */
    method SwapStore(path: string, body: seq<byte>)
      requires Valid() && path in routes
      modifies disk, routes[path]
      ensures disk.Valid() && routes[path].file == old(disk.next)
      ensures old(routes[path].file) in disk.removed && old(routes[path].file) !in disk.files
      ensures disk.files == (old(disk.files) - {old(routes[path].file)})[routes[path].file := body]
      ensures disk.removed == old(disk.removed) + {old(routes[path].file)}
      ensures Consistent(files, index, cur[index[path] := routes[path].file], owner[routes[path].file := index[path]],
                         disk.files.Keys, disk.removed)
      ensures forall q :: q in routes && q != path ==>
                routes[q].urlPath == q && index[q] != index[path] && routes[q].file == cur[index[q]] &&
                disk.files[cur[index[q]]] == old(disk.files[cur[index[q]]])
    {
      var f := routes[path];
      var k := index[path];
      assert f.file in disk.files;
      ghost var old0 := f.file;
      OtherStoresKept(disk.files, cur, owner, k, disk.next, body);
      UpdateKeepsConsistent(files, index, cur, owner, disk.files.Keys, disk.removed, k, disk.next);
      var status := f.Update(path, body, disk, true);
      assert disk.files.Keys == old(disk.files.Keys) - {old0} + {f.file};
      forall q | q in routes && q != path ensures routes[q].file == old(routes[q].file) && index[q] != k {
        assert routes[q].urlPath != f.urlPath;
        assert files[index[q]].urlPath == q;
      }
    }

    /** After an update of `path`'s handler, move the ghost binding to its new store. */
    method Rebind(path: string)
      requires disk.Valid() && path in routes && routes.Keys == index.Keys && routes[path].urlPath == path
      requires |cur| == |files| && index[path] < |files|
      requires forall q :: q in routes && q != path ==>
                 routes[q].urlPath == q && index[q] < |cur| && index[q] != index[path] && routes[q].file == cur[index[q]]
      requires Consistent(files, index, cur[index[path] := routes[path].file], owner[routes[path].file := index[path]],
                          disk.files.Keys, disk.removed)
      modifies this
      ensures Valid()
      ensures files == old(files) && routes == old(routes) && index == old(index)
      ensures cur == old(cur)[index[path] := routes[path].file]
    {
      cur, owner := cur[index[path] := routes[path].file], owner[routes[path].file := index[path]];
    }

    /**
     * TurnDownServer as written: removes the store each COPY in `files`
     * names. An endpoint that was updated keeps its current store on disk.
     */
    method TurnDownServer()
      requires Valid()
      modifies disk
      ensures disk.Valid()
      ensures disk.files == old(disk.files) - Stores(files)
      ensures forall p :: p in routes && routes[p].file != old(OriginalStore(p)) ==> routes[p].file in disk.files
    {
      forall p | p in routes && routes[p].file != OriginalStore(p)
        ensures routes[p].file in disk.files && routes[p].file !in Stores(files)
      {
        UpdatedStoreNotInCopies(files, index, cur, owner, disk.files.Keys, disk.removed, index[p]);
      }
      RemoveCopies(disk, files);
    }

    /**
     * The shutdown TurnDownServer is meant to be: remove the store each
     * endpoint's handlers currently use, so that no temp file the server
     * wrote is left behind.
     */
    method RemoveAllStores()
      requires Valid()
      modifies disk
      ensures disk.Valid()
      ensures disk.files == old(disk.files) - Names(cur) && disk.files == map[]
      ensures forall p :: p in routes ==> routes[p].file !in disk.files
      ensures forall i :: 0 <= i < |files| ==> files[i].file !in disk.files
    {
      RemoveCurrent(disk, files, routes, cur);
      assert disk.files.Keys == {};
    }
  }

  /** A fresh server after creating `/dyn/a` with [1] and updating it to [2]. */
  method CreateThenUpdate() returns (s: Server)
    ensures fresh(s) && fresh(s.disk) && s.Valid()
    ensures s.files == [Entry("/dyn/a", 0)] && "/dyn/a" in s.routes
    ensures s.routes["/dyn/a"].file !in Stores(s.files) && s.Stored("/dyn/a") == [2]
  {
    s := new Server(8080, "/srv", false);
    var created := s.Create("/dyn/a", [1], true);
    assert created == 200 && s.files == [Entry("/dyn/a", 0)] && s.disk.files == map[0 := [1]];
    var updated := s.Put("/dyn/a", [2], true);
    assert s.files == [Entry("/dyn/a", 0)] && 0 !in s.disk.files;
    assert s.files[..0] == [] && Stores(s.files) == {0};
  }

  /**
   * A PUT on a path nobody created reaches no dynamic handler: the endpoint
   * created before it still reads its own body.
   */
  method StrayPut() returns (s: Server)
    ensures s.Valid() && "/dyn/a" in s.routes && "/dyn/x" !in s.routes && s.Stored("/dyn/a") == [1]
  {
    s := new Server(8080, "/srv", false);
    var created := s.Create("/dyn/a", [1], true);
    var r := s.Put("/dyn/x", [9], true);
  }

  /**
   * The leak TurnDownServer leaves: create `/dyn/a`, update it once, shut
   * down. The store the handlers use after the update is still on disk.
   */
  method LeakAfterUpdate() returns (s: Server, leaked: Name)
    ensures leaked !in Stores(s.files)
    ensures leaked in s.disk.files && s.disk.files[leaked] == [2]
  {
    s := CreateThenUpdate();
    leaked := s.routes["/dyn/a"].file;
    assert leaked in s.disk.files && s.disk.files[leaked] == [2];
    ghost var before := s.disk.files;
    s.TurnDownServer();
    assert s.disk.files == before - Stores(s.files);
  }
}
