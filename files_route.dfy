/**
 * `src/app/api/files/route.ts`: list the tree, and create, delete or move one entry.
 * A missing field is answered with 400 before any file operation; anything the file layer
 * throws becomes 500 with its message.
 */
module FilesRoute {
  import opened Errors
  import opened Paths
  import opened Disk
  import opened Fs
  import opened Http

  /** `createItem`'s `type === "folder"` test: any other truthy value creates a file. */
  function KindOf(kind: Value): (r: ItemType)
    ensures r == FolderItem <==> kind == Str("folder")
  {
    if kind == Str("folder") then FolderItem else FileItem
  }

  /** `GET`: the listing of the content folder. */
  function Get(store: ContentDir, readdir: Path -> seq<string>): (r: Response)
    reads store
    requires store.Valid() && IsReaddir(store.disk, readdir)
    ensures r.status == 200 || r.status == 500
    ensures r.status == 500 <==> Exists(store.disk, store.root) && !IsFolder(store.disk, store.root)
    ensures r.status == 500 ==> r.body == Failure(Message(IoError(ENOTDIR)))
    ensures !Exists(store.disk, store.root) ==> r == Response(200, Tree([]))
    ensures r.status == 200 && IsFolder(store.disk, store.root) ==>
      r.body.Tree? && Lists(store.disk, readdir, "", store.root, r.body.nodes)
  {
    ResolveEmpty(store.root);
    match Fs.Tree(store.root, store.disk, readdir, "")
    case Ok(nodes) => Response(200, Tree(nodes))
    case Err(e) => Thrown(e)
  }

  /** `POST { path, type }`: create a file or a folder. */
  method Post(store: ContentDir, path: Value, kind: Value) returns (r: Response)
    requires store.Valid()
    modifies store
    ensures store.Valid()
    ensures Falsy(path) || Falsy(kind) ==>
      r == Response(400, Failure("Missing path or type")) && store.disk == old(store.disk)
    ensures !Falsy(path) && !Falsy(kind) && !path.Str? ==>
      r == Thrown(InvalidArgType) && store.disk == old(store.disk)
    ensures !Falsy(path) && !Falsy(kind) && path.Str? ==>
      var e := Create(store.root, old(store.disk), path.s, KindOf(kind));
      store.disk == e.disk && r == Respond(e.outcome)
  {
    if Falsy(path) || Falsy(kind) {
      return Response(400, Failure("Missing path or type"));
    }
    if !path.Str? {
      return Thrown(InvalidArgType);
    }
    var outcome := store.CreateItem(path.s, KindOf(kind));
    r := Respond(outcome);
  }

  /** `DELETE ?path=...`: remove an entry and everything below it. */
  method Delete(store: ContentDir, path: Option<string>) returns (r: Response)
    requires store.Valid()
    modifies store
    ensures store.Valid()
    ensures path == None || path == Some("") ==>
      r == Response(400, Failure("Missing path")) && store.disk == old(store.disk)
    ensures path.Some? && path.value != "" ==>
      var e := Fs.Delete(store.root, old(store.disk), path.value);
      store.disk == e.disk && r == Respond(e.outcome)
  {
    if path == None || path == Some("") {
      return Response(400, Failure("Missing path"));
    }
    var outcome := store.DeleteItem(path.value);
    r := Respond(outcome);
  }

  /** `PATCH { oldPath, newPath }`: move an entry; both paths are checked in that order. */
  method Patch(store: ContentDir, oldPath: Value, newPath: Value) returns (r: Response)
    requires store.Valid()
    modifies store
    ensures store.Valid()
    ensures Falsy(oldPath) || Falsy(newPath) ==>
      r == Response(400, Failure("Missing oldPath or newPath")) && store.disk == old(store.disk)
    ensures !Falsy(oldPath) && !Falsy(newPath) && !oldPath.Str? ==>
      r == Thrown(InvalidArgType) && store.disk == old(store.disk)
    ensures !Falsy(oldPath) && !Falsy(newPath) && oldPath.Str? && !newPath.Str? ==>
      r == Thrown(if SafePath(store.root, oldPath.s).Err? then AccessDenied else InvalidArgType) &&
      store.disk == old(store.disk)
    ensures !Falsy(oldPath) && !Falsy(newPath) && oldPath.Str? && newPath.Str? ==>
      var e := Rename(store.root, old(store.disk), oldPath.s, newPath.s);
      store.disk == e.disk && r == Respond(e.outcome)
  {
    if Falsy(oldPath) || Falsy(newPath) {
      return Response(400, Failure("Missing oldPath or newPath"));
    }
    if !oldPath.Str? {
      return Thrown(InvalidArgType);
    }
    if !newPath.Str? {
      // safePath(oldPath) runs, and throws, before safePath(newPath) can reject its argument
      var checked := SafePath(store.root, oldPath.s);
      return Thrown(if checked.Err? then checked.error else InvalidArgType);
    }
    var outcome := store.RenameItem(oldPath.s, newPath.s);
    r := Respond(outcome);
  }
}
