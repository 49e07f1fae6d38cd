/**
 * `src/app/api/content/route.ts`: read and save the text of one file. A missing path (or,
 * on save, a missing `content` field) is answered with 400; anything thrown becomes 500.
 */
module ContentRoute {
  import opened Errors
  import opened Paths
  import opened Disk
  import opened Fs
  import opened Http

  /** `GET ?path=...`: the stored text of a file. */
  function Get(store: ContentDir, path: Option<string>): (r: Response)
    reads store
    requires store.Valid()
    ensures path == None || path == Some("") ==> r == Response(400, Failure("Missing path"))
    ensures path.Some? && path.value != "" ==>
      var p := Resolve(store.root, path.value);
      && (r.status == 200 <==> Admitted(store.root, p) && p in store.disk && store.disk[p].File?)
      && (r.status == 200 ==> r.body == Content(store.disk[p].content))
      && (r.status != 200 ==> r.status == 500 && r.body.Failure?)
      && (r.body == Failure(Message(AccessDenied)) <==> !Admitted(store.root, p))
      && (r.body == Failure(Message(FileNotFound)) <==> Admitted(store.root, p) && !Exists(store.disk, p))
      && (Admitted(store.root, p) && IsFolder(store.disk, p) ==> r == Thrown(IoError(EISDIR)))
  {
    if path == None || path == Some("") then Response(400, Failure("Missing path"))
    else
      match Read(store.root, store.disk, path.value)
      case Ok(content) => Response(200, Content(content))
      case Err(e) =>
        assert e == AccessDenied || e == FileNotFound || e == IoError(EISDIR);
        Thrown(e)
  }

  /**
   * `POST { path, content }`: save the text. `content === undefined` is the only missing content,
   * so "" is saved; a content that is not a string passes `safePath` and is then rejected by
   * `writeFileSync`.
   */
  method Post(store: ContentDir, path: Value, content: Value) returns (r: Response)
    requires store.Valid()
    modifies store
    ensures store.Valid()
    ensures Falsy(path) || content == Undefined ==>
      r == Response(400, Failure("Missing path or content")) && store.disk == old(store.disk)
    ensures !Falsy(path) && content != Undefined && !path.Str? ==>
      r == Thrown(InvalidArgType) && store.disk == old(store.disk)
    ensures !Falsy(path) && content != Undefined && path.Str? && !content.Str? ==>
      r == Thrown(if SafePath(store.root, path.s).Err? then AccessDenied else InvalidArgType) &&
      store.disk == old(store.disk)
    ensures !Falsy(path) && path.Str? && content.Str? ==>
      var e := Write(store.root, old(store.disk), path.s, content.s);
      store.disk == e.disk && r == Respond(e.outcome)
  {
    if Falsy(path) || content == Undefined {
      return Response(400, Failure("Missing path or content"));
    }
    if !path.Str? {
      return Thrown(InvalidArgType);
    }
    if !content.Str? {
      var checked := SafePath(store.root, path.s);
      return Thrown(if checked.Err? then checked.error else InvalidArgType);
    }
    var outcome := store.WriteFile(path.s, content.s);
    r := Respond(outcome);
  }
}
